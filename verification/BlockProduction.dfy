/** Building a block from the pool (block.rs, poas.rs). */
module BlockProduction {
  import opened Types
  import opened Blocks
  import Merkle
  import Chains
  import Finality
  import WorldStates
  import M = Mempool
  import F = BlockFilling
  import N = Nested
  import TransactionPools

  // The most transactions a produced block takes from the pool.
  const BLOCK_COUNT: nat := 1000

  /** Foreign parts: header and transaction hashing, a hash's bytes, and the hashing inside the Merkle tree. */
  datatype Kit = Kit(
    header: Header -> Hash,
    transaction: M.Hashing,
    bytes: Hash -> Merkle.Data,
    merkle: Merkle.Hasher)

  /** `TreePanicked` is the Merkle tree's index outside its array. */
  datatype ProductionError = NotCanonical | TreePanicked

  // ----- the transactions root

  /** The leaves of a block's tree: the bytes of its transaction hashes. */
  function Leaves(k: Kit, txs: seq<Transaction>): (leaves: seq<Merkle.Data>)
    ensures |leaves| == |txs|
  {
    if txs == [] then [] else [k.bytes(k.transaction(txs[0]))] + Leaves(k, txs[1..])
  }

  /** The root over `txs`: zero for none, otherwise that of the tree over their hashes. */
  ghost predicate IsRoot(k: Kit, txs: seq<Transaction>, root: Hash) {
    if txs == [] then root == ZERO_HASH
    else exists t :: Merkle.IsTreeOf(k.merkle, t, Leaves(k, txs)) && t.nodes[0] == root
  }

  /** The tree's constructor gets through these transactions. */
  ghost predicate HasTree(txs: seq<Transaction>) {
    txs == [] || Merkle.IsPow2(|txs|)
  }

  /** Transactions have at most one root. */
  lemma RootIsUnique(k: Kit, txs: seq<Transaction>, a: Hash, b: Hash)
    requires IsRoot(k, txs, a)
    ensures IsRoot(k, txs, b) <==> a == b
  {
    if txs != [] && IsRoot(k, txs, b) {
      var s :| Merkle.IsTreeOf(k.merkle, s, Leaves(k, txs)) && s.nodes[0] == a;
      var t :| Merkle.IsTreeOf(k.merkle, t, Leaves(k, txs)) && t.nodes[0] == b;
      Merkle.NodeIsUnique(k.merkle, s, t, Leaves(k, txs), 0);
    }
  }

  lemma {:induction false} LeafAt(k: Kit, txs: seq<Transaction>, i: nat)
    requires i < |txs|
    ensures Leaves(k, txs)[i] == k.bytes(k.transaction(txs[i]))
  {
    if i > 0 {
      LeafAt(k, txs[1..], i - 1);
    }
  }

  /** No two transactions, hashes or tree nodes share their hash. */
  ghost predicate SoundKit(k: Kit) {
    && F.Collisionless(k.transaction)
    && (forall x, y {:trigger k.bytes(x), k.bytes(y)} :: k.bytes(x) == k.bytes(y) ==> x == y)
    && Merkle.Injective(k.merkle)
  }

  /** A root commits a block to its transactions and their order. */
  lemma RootBindsTransactions(k: Kit, xs: seq<Transaction>, ys: seq<Transaction>, root: Hash)
    requires SoundKit(k) && |xs| == |ys| && IsRoot(k, xs, root) && IsRoot(k, ys, root)
    ensures xs == ys
  {
    if xs != [] {
      var s :| Merkle.IsTreeOf(k.merkle, s, Leaves(k, xs)) && s.nodes[0] == root;
      var t :| Merkle.IsTreeOf(k.merkle, t, Leaves(k, ys)) && t.nodes[0] == root;
      Merkle.RootBindsLeaves(k.merkle, s, t, Leaves(k, xs), Leaves(k, ys));
      forall i | 0 <= i < |xs| ensures xs[i] == ys[i] {
        LeafAt(k, xs, i);
        LeafAt(k, ys, i);
      }
    }
  }

  method TransactionsRoot(k: Kit, txs: seq<Transaction>) returns (r: Option<Hash>)
    ensures r.Some? <==> HasTree(txs)
    ensures r.Some? ==> IsRoot(k, txs, r.value)
  {
    if txs == [] {
      return Some(ZERO_HASH);
    }
    var tree := Merkle.New(k.merkle, Leaves(k, txs));
    return if tree.Success? then Some(tree.value.nodes[0]) else None;
  }

  /** The root check of block validation: it panics, giving no answer, exactly when the transactions have no tree. */
  method CheckRoot(k: Kit, b: Block) returns (r: Option<bool>)
    ensures r.Some? <==> HasTree(b.transactions)
    ensures r.Some? ==> (r.value <==> b.transactions == [] || IsRoot(k, b.transactions, b.header.transactionsRoot))
  {
    if b.transactions == [] {
      return Some(true);
    }
    var root := TransactionsRoot(k, b.transactions);
    if root.None? {
      return None;
    }
    RootIsUnique(k, b.transactions, root.value, b.header.transactionsRoot);
    return Some(root.value == b.header.transactionsRoot);
  }

  // ----- the new block

  /** The block on `parent` that holds `txs`. */
  ghost predicate IsBuilt(k: Kit, parent: Header, b: Block, txs: seq<Transaction>, time: nat, proposer: Address) {
    && IsRoot(k, txs, b.header.transactionsRoot)
    && b == Block(
         Header(parent.number + 1, k.header(parent), b.header.transactionsRoot, ZERO_HASH, time, proposer,
                parent.gasLimit, TotalGas(txs) % U64, []),
         txs, [])
  }

  /** `Block::new`, as called by the producer. */
  method NewBlock(k: Kit, parent: Header, txs: seq<Transaction>, time: nat, proposer: Address)
    returns (r: Result<Block, ProductionError>)
    ensures r.Success? <==> HasTree(txs)
    ensures r.Success? ==> IsBuilt(k, parent, r.value, txs, time, proposer)
    ensures r.Failure? ==> r.error == TreePanicked
  {
    var root := TransactionsRoot(k, txs);
    if root.None? {
      return Failure(TreePanicked);
    }
    var gas := SumGas(txs);
    return Success(Block(
      Header(parent.number + 1, k.header(parent), root.value, ZERO_HASH, time, proposer, parent.gasLimit, gas, []),
      txs, []));
  }

  /** The 64-bit sum of the gas limits. */
  method SumGas(txs: seq<Transaction>) returns (gas: nat)
    ensures gas == TotalGas(txs) % U64
  {
    gas := 0;
    var exact: nat := 0;
    for i := 0 to |txs|
      invariant exact + TotalGas(txs[i..]) == TotalGas(txs)
      invariant gas == exact % U64
    {
      gas, exact := (gas + txs[i].gasLimit) % U64, exact + txs[i].gasLimit;
    }
  }

  // ----- validation of the new block

  /** `rootOk` is the root check, wherever that check gives an answer. */
  ghost predicate ChecksRoots(k: Kit, rootOk: Block -> bool) {
    forall b: Block {:trigger rootOk(b)} :: b.transactions != [] && HasTree(b.transactions) ==>
      (rootOk(b) <==> IsRoot(k, b.transactions, b.header.transactionsRoot))
  }

  lemma BuiltPasses(k: Kit, rootOk: Block -> bool, parent: Header, b: Block, txs: seq<Transaction>, time: nat,
                    proposer: Address)
    requires ChecksRoots(k, rootOk) && HasTree(txs) && IsBuilt(k, parent, b, txs, time, proposer)
    requires forall i :: 0 <= i < |txs| ==> ValidBasic(txs[i])
    requires TotalGas(txs) % U64 <= parent.gasLimit
    ensures Validate(b, parent, k.header, rootOk) == if time <= parent.timestamp then Some(BadTimestamp) else None
  {
  }

  lemma PendingIsUsable(c: M.Config, txHash: M.Hashing, p: M.Pool, tx: Transaction)
    requires M.Valid(c, txHash, p) && F.IsPending(p, tx)
    ensures ValidBasic(tx)
  {
    var price, h :| price in p.pending && h in p.pending[price] && p.pending[price][h].tx == tx;
    assert N.At(p.pending, price, h).Some?;
  }

  /** Whatever is selected from a valid pool passes the basic checks. */
  lemma SelectionIsUsable(c: M.Config, txHash: M.Hashing, p: M.Pool, order: seq<Transaction>, slots: nat, maxGas: nat)
    requires M.Valid(c, txHash, p) && F.Listing(p, order)
    ensures var txs := F.Fill(order, 0, slots, maxGas); forall i :: 0 <= i < |txs| ==> ValidBasic(txs[i])
  {
    var txs := F.Fill(order, 0, slots, maxGas);
    F.FillSelects(order, 0, slots, maxGas);
    forall i | 0 <= i < |txs| ensures ValidBasic(txs[i]) {
      assert txs[i] in multiset(txs) && txs[i] in multiset(order);
      PendingIsUsable(c, txHash, p, txs[i]);
    }
  }

  /** A produced block passes validation exactly when the clock has moved on since its parent. */
  lemma ProducedBlockPasses(c: M.Config, p: M.Pool, order: seq<Transaction>, k: Kit, rootOk: Block -> bool,
                            parent: Header, b: Block, time: nat, proposer: Address)
    requires M.Valid(c, k.transaction, p) && F.Listing(p, order) && ChecksRoots(k, rootOk)
    requires var txs := F.Fill(order, 0, 1000, parent.gasLimit);
      HasTree(txs) && IsBuilt(k, parent, b, txs, time, proposer)
    ensures Validate(b, parent, k.header, rootOk) == if time <= parent.timestamp then Some(BadTimestamp) else None
  {
    var txs := F.Fill(order, 0, 1000, parent.gasLimit);
    SelectionIsUsable(c, k.transaction, p, order, 1000, parent.gasLimit);
    F.FillGasWraps(order, 0, 1000, parent.gasLimit);
    BuiltPasses(k, rootOk, parent, b, txs, time, proposer);
  }

  /** The state root is the zero hash for no accounts, and for no others. */
  ghost predicate ZeroIsEmpty(stateRoot: WorldStates.Accounts -> Hash) {
    forall m {:trigger stateRoot(m)} :: stateRoot(m) == ZERO_HASH <==> m == map[]
  }

  /** A produced block, whose state root is left zero, is added to a store that holds its parent exactly when the clock
      has moved on and there are no accounts at all. */
  lemma ProducedBlockIsAddedIff(config: M.Config, p: M.Pool, order: seq<Transaction>, k: Kit, c: Chains.Crypto,
                                s: Chains.Store, accounts: WorldStates.Accounts, parent: Header, b: Block, time: nat,
                                proposer: Address)
    requires M.Valid(config, k.transaction, p) && F.Listing(p, order)
    requires c.header == k.header && ChecksRoots(k, c.rootOk) && ZeroIsEmpty(c.stateRoot)
    requires k.header(parent) in s.blocks && s.blocks[k.header(parent)].header == parent
    requires var txs := F.Fill(order, 0, 1000, parent.gasLimit);
      HasTree(txs) && IsBuilt(k, parent, b, txs, time, proposer)
    ensures Chains.Refusal(c, s, b, c.stateRoot(accounts)).None? <==> time > parent.timestamp && accounts == map[]
  {
    ProducedBlockPasses(config, p, order, k, c.rootOk, parent, b, time, proposer);
  }

  // ----- production

  /** Keeps the transactions that pass the basic checks; it keeps all of `txs` when all do. */
  method KeepUsable(txs: seq<Transaction>) returns (kept: seq<Transaction>)
    ensures forall tx :: multiset(kept)[tx] == if ValidBasic(tx) then multiset(txs)[tx] else 0
    ensures (forall i :: 0 <= i < |txs| ==> ValidBasic(txs[i])) ==> kept == txs
  {
    kept := [];
    for i := 0 to |txs|
      invariant forall tx :: multiset(kept)[tx] == if ValidBasic(tx) then multiset(txs[..i])[tx] else 0
      invariant (forall j :: 0 <= j < i ==> ValidBasic(txs[j])) ==> kept == txs[..i]
    {
      assert txs[..i + 1] == txs[..i] + [txs[i]];
      if ValidBasic(txs[i]) {
        kept := kept + [txs[i]];
      }
    }
    assert txs[..|txs|] == txs;
  }

  ghost function HashesIn(txHash: M.Hashing, txs: seq<Transaction>): set<Hash> {
    set tx | tx in txs :: txHash(tx)
  }

  lemma {:induction false} SameHashes(txHash: M.Hashing, txs: seq<Transaction>)
    ensures forall h :: h in TransactionPools.HashesOf(txHash, txs) <==> h in HashesIn(txHash, txs)
  {
    if txs != [] {
      var before, last := txs[..|txs| - 1], txs[|txs| - 1];
      SameHashes(txHash, before);
      assert txs == before + [last];
      assert HashesIn(txHash, txs) == HashesIn(txHash, before) + {txHash(last)};
    }
  }

  /** Removing what a block includes, and promoting after it, keeps the pool valid and takes exactly those. */
  lemma IncludedAreGone(c: M.Config, txHash: M.Hashing, p: M.Pool, txs: seq<Transaction>, slots: seq<(Address, nat)>)
    requires M.Valid(c, txHash, p)
    ensures var p' := M.PromoteAll(txHash, M.RemoveAll(p, TransactionPools.HashesOf(txHash, txs)), slots);
      M.Valid(c, txHash, p') && p'.byHash.Keys == p.byHash.Keys - HashesIn(txHash, txs)
  {
    var hashes := TransactionPools.HashesOf(txHash, txs);
    M.RemoveAllKeepsValid(c, txHash, p, hashes);
    M.PromoteAllKeepsValid(c, txHash, M.RemoveAll(p, hashes), slots);
    M.PromoteAllKeepsLive(txHash, M.RemoveAll(p, hashes), slots);
    SameHashes(txHash, txs);
    forall h ensures h in M.RemoveAll(p, hashes).byHash <==> h in p.byHash.Keys - HashesIn(txHash, txs) {
      M.RemoveAllTakes(p, hashes, h);
    }
  }

  /** `produce_block`: fails and changes nothing exactly when the parent lost a remembered fork or the selection has no
      tree; otherwise builds the block over the selection, takes exactly its transactions out of the pool and credits
      the proposer. */
  method ProduceBlock(k: Kit, consensus: Finality.PoASConsensus, pool: TransactionPools.TransactionPool,
                      parent: Header, time: nat, proposer: Address)
    returns (r: Result<Block, ProductionError>, ghost order: seq<Transaction>)
    requires pool.hash == k.transaction && M.Valid(pool.config, pool.hash, pool.Value())
    modifies pool, consensus`validators
    ensures M.Valid(pool.config, pool.hash, pool.Value())
    ensures var canonical := Finality.IsCanonical(old(consensus.Value()), k.header(parent));
      var txs := F.Fill(order, 0, 1000, parent.gasLimit);
      if !canonical then r == Failure(NotCanonical)
      else
        && F.Listing(old(pool.Value()), order)
        && (r.Success? <==> HasTree(txs))
        && (r.Success? ==>
              && IsBuilt(k, parent, r.value, txs, time, proposer)
              && pool.byHash.Keys == old(pool.byHash).Keys - HashesIn(k.transaction, txs)
              && consensus.Value() == Finality.Credit(old(consensus.Value()), proposer))
    ensures r.Failure? ==> pool.Value() == old(pool.Value()) && consensus.Value() == old(consensus.Value())
  {
    order := [];
    var canonical := consensus.VerifyChainCanonical(k.header(parent));
    if !canonical {
      return Failure(NotCanonical), order;
    }
    var txs;
    txs, order := pool.GetPending(parent.gasLimit, BLOCK_COUNT);
    var usable := KeepUsable(txs);
    SelectionIsUsable(pool.config, pool.hash, pool.Value(), order, BLOCK_COUNT, parent.gasLimit);
    r := NewBlock(k, parent, usable, time, proposer);
    if r.Success? {
      ghost var before := pool.Value();
      ghost var slots := pool.RemoveIncluded(usable);
      IncludedAreGone(pool.config, pool.hash, before, usable, slots);
      consensus.CreditProposer(proposer);
    }
  }
}
