/** The block store with its height index, and execution against the world state (chain.rs). */
module Chains {
  import opened Types
  import opened Blocks
  import opened WorldStates
  import opened Forks
  import Execution

  /** The foreign parts of the node: header and transaction hashing, and the two Merkle-style roots. */
  datatype Crypto = Crypto(
    header: Header -> Hash,
    transaction: Transaction -> Hash,
    rootOk: Block -> bool,
    stateRoot: Accounts -> Hash)

  /** Header hashing has no collisions and never yields the zero hash. */
  ghost predicate SoundHashing(c: Crypto) {
    && (forall x, y {:trigger c.header(x), c.header(y)} :: c.header(x) == c.header(y) ==> x == y)
    && (forall x {:trigger c.header(x)} :: c.header(x) != ZERO_HASH)
  }

  /** The block store. */
  datatype Store = Store(blocks: Tree, byNumber: map<nat, Hash>, head: Hash, genesis: Hash)

  datatype ChainError = BlockNotFound(hash: Hash) | Invalid(error: BlockError) | StateRootMismatch | NotGenesis

  function NewStore(c: Crypto, genesis: Block): Store
    requires IsGenesis(genesis)
  {
    var g := c.header(genesis.header);
    Store(map[g := genesis], map[0 := g], g, g)
  }

  /** Why `add_block` refuses a block, if it does; `root` is the current state root. */
  function Refusal(c: Crypto, s: Store, b: Block, root: Hash): Option<ChainError> {
    if b.header.parentHash !in s.blocks then Some(ChainError.BlockNotFound(b.header.parentHash))
    else
      var invalid := Validate(b, s.blocks[b.header.parentHash].header, c.header, c.rootOk);
      if invalid.Some? then Some(Invalid(invalid.value))
      else if b.header.stateRoot != root then Some(StateRootMismatch)
      else None
  }

  function Add(c: Crypto, s: Store, b: Block, root: Hash): Store {
    if Refusal(c, s, b, root).Some? then s
    else
      var h := c.header(b.header);
      s.(blocks := s.blocks[h := b], byNumber := s.byNumber[b.header.number := h], head := h)
  }

  /** Every attempted addition, each with the state root in force at the time. */
  function AddAll(c: Crypto, s: Store, run: seq<(Block, Hash)>): Store
    decreases |run|
  {
    if run == [] then s else AddAll(c, Add(c, s, run[0].0, run[0].1), run[1..])
  }

  /** A block is accepted exactly when its parent is stored and it and the state root are in order. */
  lemma AcceptedIff(c: Crypto, s: Store, b: Block, root: Hash)
    ensures Refusal(c, s, b, root).None? <==>
      && b.header.parentHash in s.blocks
      && var parent := s.blocks[b.header.parentHash].header;
      && b.header.number == parent.number + 1
      && b.header.parentHash == c.header(parent)
      && b.header.timestamp > parent.timestamp
      && b.header.gasUsed <= b.header.gasLimit
      && b.header.gasUsed == TotalGas(b.transactions) % U64
      && (forall i :: 0 <= i < |b.transactions| ==> ValidBasic(b.transactions[i]))
      && (b.transactions != [] ==> c.rootOk(b))
      && b.header.stateRoot == root
    ensures Refusal(c, s, b, root) == Some(ChainError.BlockNotFound(b.header.parentHash)) <==>
      b.header.parentHash !in s.blocks
    ensures Refusal(c, s, b, root) == Some(StateRootMismatch) ==> b.header.stateRoot != root
  {
  }

  // ----- what every run keeps

  ghost predicate Consistent(c: Crypto, s: Store) {
    && WellFormed(s.blocks, s.genesis)
    && s.head in s.blocks
    && (forall h {:trigger Linked(c, s, h)} :: h in s.blocks ==> Linked(c, s, h))
    && (forall n {:trigger s.byNumber[n]} :: n in s.byNumber ==>
          s.byNumber[n] in s.blocks && Height(s.blocks, s.byNumber[n]) == n)
    && s.byNumber.Keys >= {0, Height(s.blocks, s.head)}
    && s.byNumber[0] == s.genesis
    && s.byNumber[Height(s.blocks, s.head)] == s.head
  }

  /** A stored block is keyed by its hash, indexed at its height, and valid against its parent. */
  ghost predicate Linked(c: Crypto, s: Store, h: Hash) {
    && h in s.blocks
    && h == c.header(s.blocks[h].header)
    && s.blocks[h].header.number in s.byNumber
    && (h != s.genesis ==>
          && s.blocks[h].header.parentHash in s.blocks
          && Validate(s.blocks[h], s.blocks[s.blocks[h].header.parentHash].header, c.header, c.rootOk).None?)
  }

  lemma NewIsConsistent(c: Crypto, genesis: Block)
    requires SoundHashing(c) && IsGenesis(genesis)
    ensures var s := NewStore(c, genesis); Consistent(c, s) && IndexFollows(s, s.head)
  {
  }

  lemma AddKeepsBlocks(c: Crypto, s: Store, b: Block, root: Hash)
    requires SoundHashing(c) && Consistent(c, s) && Refusal(c, s, b, root).None?
    ensures var s' := Add(c, s, b, root);
      forall h :: h in s.blocks ==> h in s'.blocks && s'.blocks[h].header == s.blocks[h].header
  {
    var h := c.header(b.header);
    if h in s.blocks {
      assert Linked(c, s, h);
    }
  }

  lemma AddKeepsConsistent(c: Crypto, s: Store, b: Block, root: Hash)
    requires SoundHashing(c) && Consistent(c, s)
    ensures Consistent(c, Add(c, s, b, root))
  {
    var s' := Add(c, s, b, root);
    if Refusal(c, s, b, root).None? {
      var added := c.header(b.header);
      AddKeepsBlocks(c, s, b, root);
      assert added != s.genesis by { assert Linked(c, s, s.genesis); }
      forall h | h in s'.blocks ensures Linked(c, s', h) {
        if h != added {
          assert Linked(c, s, h);
        }
      }
      forall h | h in s'.blocks && h != s'.genesis ensures HasParent(s'.blocks, h) {
        if h != added {
          assert HasParent(s.blocks, h);
        }
      }
    }
  }

  lemma {:induction false} RunsAreConsistent(c: Crypto, s: Store, run: seq<(Block, Hash)>)
    requires SoundHashing(c) && Consistent(c, s)
    ensures Consistent(c, AddAll(c, s, run)) && AddAll(c, s, run).genesis == s.genesis
    decreases |run|
  {
    if run != [] {
      AddKeepsConsistent(c, s, run[0].0, run[0].1);
      RunsAreConsistent(c, Add(c, s, run[0].0, run[0].1), run[1..]);
    }
  }

  /** A list of blocks in which each is valid against the one before it. */
  ghost predicate ValidChain(c: Crypto, chain: seq<Block>) {
    forall i :: 0 < i < |chain| ==> ValidNext(c, chain, i)
  }

  ghost predicate ValidNext(c: Crypto, chain: seq<Block>, i: nat)
    requires 0 < i < |chain|
  {
    Validate(chain[i], chain[i - 1].header, c.header, c.rootOk).None?
  }

  lemma {:induction false} StoredChain(c: Crypto, s: Store, h: Hash)
    requires Consistent(c, s) && h in s.blocks
    ensures var chain := Chain(s.blocks, s.genesis, h);
      && |chain| == Height(s.blocks, h) + 1
      && chain[0] == s.blocks[s.genesis]
      && chain[|chain| - 1] == s.blocks[h]
      && ValidChain(c, chain)
    decreases Height(s.blocks, h)
  {
    GenesisIsBottom(s.blocks, s.genesis, h);
    if h != s.genesis {
      var parent := s.blocks[h].header.parentHash;
      StoredChain(c, s, parent);
      assert Linked(c, s, h);
      var before, chain := Chain(s.blocks, s.genesis, parent), Chain(s.blocks, s.genesis, h);
      forall i | 0 < i < |chain| ensures ValidNext(c, chain, i) {
        assert i < |before| ==> ValidNext(c, before, i);
      }
    }
  }

  /** What the checks say of a block by itself. */
  predicate InOrder(c: Crypto, b: Block) {
    && (forall i :: 0 <= i < |b.transactions| ==> ValidBasic(b.transactions[i]))
    && b.header.gasUsed == TotalGas(b.transactions) % U64
    && b.header.gasUsed <= b.header.gasLimit
    && (b.transactions != [] ==> c.rootOk(b))
  }

  /** After any run from genesis, every stored block closes a valid chain from genesis, as long as its number says. */
  lemma ReachableChains(c: Crypto, genesis: Block, run: seq<(Block, Hash)>, h: Hash)
    requires SoundHashing(c) && IsGenesis(genesis)
    requires h in AddAll(c, NewStore(c, genesis), run).blocks
    ensures var s := AddAll(c, NewStore(c, genesis), run);
      && WellFormed(s.blocks, s.genesis)
      && var chain := Chain(s.blocks, s.genesis, h);
      && |chain| == Height(s.blocks, h) + 1
      && chain[|chain| - 1] == s.blocks[h]
      && IsGenesis(chain[0])
      && ValidChain(c, chain)
      && (forall i :: 0 < i < |chain| ==> InOrder(c, chain[i]))
      && forall i, j :: 0 <= i < j < |chain| ==> chain[i].header.timestamp < chain[j].header.timestamp
  {
    NewIsConsistent(c, genesis);
    RunsAreConsistent(c, NewStore(c, genesis), run);
    var s := AddAll(c, NewStore(c, genesis), run);
    StoredChain(c, s, h);
    var chain := Chain(s.blocks, s.genesis, h);
    forall i | 0 < i < |chain| ensures InOrder(c, chain[i]) {
      assert ValidNext(c, chain, i);
      ValidateIff(chain[i], chain[i - 1].header, c.header, c.rootOk);
    }
    forall i, j | 0 <= i < j < |chain| ensures chain[i].header.timestamp < chain[j].header.timestamp {
      TimestampsIncrease(c, chain, i, j);
    }
  }

  lemma {:induction false} TimestampsIncrease(c: Crypto, chain: seq<Block>, i: nat, j: nat)
    requires ValidChain(c, chain) && i < j < |chain|
    ensures chain[i].header.timestamp < chain[j].header.timestamp
  {
    assert ValidNext(c, chain, j);
    if i < j - 1 {
      TimestampsIncrease(c, chain, i, j - 1);
    }
  }

  /** Every height up to the head's is indexed, by a block of that height. */
  lemma IndexIsFull(c: Crypto, s: Store, n: nat)
    requires Consistent(c, s) && n <= Height(s.blocks, s.head)
    ensures n in s.byNumber && s.byNumber[n] in s.blocks && Height(s.blocks, s.byNumber[n]) == n
  {
    var k := Height(s.blocks, s.head) - n;
    UpInTree(s.blocks, s.genesis, s.head, k);
    assert Linked(c, s, Up(s.blocks, s.head, k));
  }

  // ----- when the index is the head's ancestry

  /** The index holds `h`'s ancestor at height `n`. */
  ghost predicate HoldsAncestor(s: Store, h: Hash, n: nat)
    requires h in s.blocks && n <= Height(s.blocks, h)
  {
    n in s.byNumber && s.byNumber[n] == Up(s.blocks, h, Height(s.blocks, h) - n)
  }

  /** The index is `h`'s ancestry up to its height. */
  ghost predicate IndexFollows(s: Store, h: Hash) {
    h in s.blocks && forall n: nat :: n <= Height(s.blocks, h) ==> HoldsAncestor(s, h, n)
  }

  lemma AddHoldsIff(c: Crypto, s: Store, b: Block, root: Hash, n: nat)
    requires SoundHashing(c) && Consistent(c, s) && Refusal(c, s, b, root).None?
    requires n < b.header.number
    ensures var s' := Add(c, s, b, root);
      && b.header.number == Height(s.blocks, b.header.parentHash) + 1 == Height(s'.blocks, s'.head)
      && (HoldsAncestor(s', s'.head, n) <==> HoldsAncestor(s, b.header.parentHash, n))
  {
    var s', p := Add(c, s, b, root), b.header.parentHash;
    var k := Height(s.blocks, p) - n;
    AddKeepsBlocks(c, s, b, root);
    StepUp(s'.blocks, s'.head, k + 1);
    UpAgrees(s.blocks, s'.blocks, s.genesis, p, k);
  }

  /** After an addition the index follows the new head exactly when it followed the parent before. */
  lemma AddFollowsIff(c: Crypto, s: Store, b: Block, root: Hash)
    requires SoundHashing(c) && Consistent(c, s) && Refusal(c, s, b, root).None?
    ensures var s' := Add(c, s, b, root);
      IndexFollows(s', s'.head) <==> IndexFollows(s, b.header.parentHash)
  {
    var s' := Add(c, s, b, root);
    forall n: nat | n < b.header.number
      ensures HoldsAncestor(s', s'.head, n) <==> HoldsAncestor(s, b.header.parentHash, n)
    {
      AddHoldsIff(c, s, b, root, n);
    }
    assert HoldsAncestor(s', s'.head, b.header.number);
  }

  /** The parent of an accepted block is the block indexed at its height, no higher than the head. */
  predicate OnIndex(s: Store, b: Block) {
    && s.head in s.blocks
    && 0 < b.header.number <= s.blocks[s.head].header.number + 1
    && b.header.number - 1 in s.byNumber
    && b.header.parentHash == s.byNumber[b.header.number - 1]
  }

  /** Every accepted block of the run is added on the index; in particular it may extend the head. */
  predicate ExtendsIndex(c: Crypto, s: Store, run: seq<(Block, Hash)>)
    decreases |run|
  {
    if run == [] then true
    else
      && (Refusal(c, s, run[0].0, run[0].1).None? ==> OnIndex(s, run[0].0))
      && ExtendsIndex(c, Add(c, s, run[0].0, run[0].1), run[1..])
  }

  /** Such runs keep the index equal to the head's ancestry. */
  lemma {:induction false} ExtendingRunsFollow(c: Crypto, s: Store, run: seq<(Block, Hash)>)
    requires SoundHashing(c) && Consistent(c, s) && IndexFollows(s, s.head) && ExtendsIndex(c, s, run)
    ensures var s' := AddAll(c, s, run); Consistent(c, s') && IndexFollows(s', s'.head)
    decreases |run|
  {
    if run != [] {
      var (b, root) := run[0];
      AddKeepsConsistent(c, s, b, root);
      if Refusal(c, s, b, root).None? {
        IndexedAncestorFollows(c, s, b.header.number - 1);
        AddFollowsIff(c, s, b, root);
      }
      ExtendingRunsFollow(c, Add(c, s, b, root), run[1..]);
    }
  }

  lemma IndexedAncestorFollows(c: Crypto, s: Store, n: nat)
    requires Consistent(c, s) && IndexFollows(s, s.head) && n <= Height(s.blocks, s.head)
    ensures n in s.byNumber && IndexFollows(s, s.byNumber[n])
  {
    var top := Height(s.blocks, s.head);
    UpInTree(s.blocks, s.genesis, s.head, top - n);
    assert HoldsAncestor(s, s.head, n);
    forall m: nat | m <= n ensures HoldsAncestor(s, s.byNumber[n], m) {
      assert HoldsAncestor(s, s.head, m);
      UpUp(s.blocks, s.head, top - n, n - m);
    }
  }

  // ----- two short runs from any genesis

  /** A block without transactions. */
  function Plain(number: nat, parent: Hash, time: nat, proposer: Address): Block {
    Block(Header(number, parent, 0, 0, time, proposer, 0, 0, []), [], [])
  }

  /** A run that adds on a block the index has replaced ends with an index that is not the head's ancestry. */
  lemma StaleParentBreaksIndex(c: Crypto, genesis: Block)
    requires SoundHashing(c) && IsGenesis(genesis)
    ensures exists run :: var s := AddAll(c, NewStore(c, genesis), run); !IndexFollows(s, s.head)
  {
    var g, time := c.header(genesis.header), genesis.header.timestamp;
    var left, right := Plain(1, g, time + 1, 0), Plain(1, g, time + 2, 0);
    var tip := Plain(2, c.header(left.header), time + 2, 0);
    var run := [(left, 0), (right, 0), (tip, 0)];
    var s0 := NewStore(c, genesis);
    var s1 := Add(c, s0, left, 0);
    var s2 := Add(c, s1, right, 0);
    var s3 := Add(c, s2, tip, 0);
    assert s2.byNumber[1] == c.header(right.header) != c.header(left.header);
    assert c.header(left.header) in s2.blocks && Refusal(c, s2, tip, 0).None?;
    assert AddAll(c, s0, run) == AddAll(c, s1, run[1..]) == AddAll(c, s2, run[1..][1..]) == s3;
    assert Up(s3.blocks, s3.head, 1) == c.header(left.header) by { assert Up(s3.blocks, s3.head, 0) == s3.head; }
    assert !HoldsAncestor(s3, s3.head, 1);
  }

  lemma {:induction false} AddAllNext(c: Crypto, s: Store, run: seq<(Block, Hash)>, b: Block)
    ensures AddAll(c, s, run + [(b, 0)]) == Add(c, AddAll(c, s, run), b, 0)
    decreases |run|
  {
    if run == [] {
      assert run + [(b, 0)] == [(b, 0)] && [(b, 0)][1..] == [];
    } else {
      assert (run + [(b, 0)])[1..] == run[1..] + [(b, 0)];
      AddAllNext(c, Add(c, s, run[0].0, run[0].1), run[1..], b);
    }
  }

  /** A plain block, later than a stored one, can always be added on it. */
  lemma PlainIsAdded(c: Crypto, s: Store, x: Hash, delay: nat)
    requires SoundHashing(c) && Consistent(c, s) && x in s.blocks
    ensures var b := Plain(Height(s.blocks, x) + 1, x, s.blocks[x].header.timestamp + 1 + delay, delay);
      && Refusal(c, s, b, 0).None?
      && Add(c, s, b, 0).head == c.header(b.header)
      && Lookup(Add(c, s, b, 0).blocks, c.header(b.header)) == Some(b)
  {
    assert Linked(c, s, x);
  }

  /** A run of plain blocks, each on the one before. */
  lemma {:induction false} Line(c: Crypto, genesis: Block, n: nat) returns (run: seq<(Block, Hash)>)
    requires SoundHashing(c) && IsGenesis(genesis)
    ensures var s := AddAll(c, NewStore(c, genesis), run); Consistent(c, s) && Height(s.blocks, s.head) == n
  {
    run := [];
    NewIsConsistent(c, genesis);
    if n > 0 {
      run := Line(c, genesis, n - 1);
      var s := AddAll(c, NewStore(c, genesis), run);
      var b := Plain(n, s.head, s.blocks[s.head].header.timestamp + 1, 0);
      PlainIsAdded(c, s, s.head, 0);
      AddKeepsConsistent(c, s, b, 0);
      AddAllNext(c, NewStore(c, genesis), run, b);
      run := run + [(b, 0)];
    }
  }

  /** Two different heads of one height, at any height above genesis. */
  lemma EqualHeads(c: Crypto, genesis: Block, n: nat) returns (run: seq<(Block, Hash)>, a: Hash, b: Hash)
    requires SoundHashing(c) && IsGenesis(genesis)
    ensures var s := AddAll(c, NewStore(c, genesis), run);
      && Consistent(c, s) && a in s.blocks && b in s.blocks && a != b
      && Height(s.blocks, a) == Height(s.blocks, b) == n + 1
  {
    run := Line(c, genesis, n);
    var s := AddAll(c, NewStore(c, genesis), run);
    var time := s.blocks[s.head].header.timestamp + 1;
    var x, y := Plain(n + 1, s.head, time, 0), Plain(n + 1, s.head, time + 1, 1);
    a, b := c.header(x.header), c.header(y.header);
    PlainIsAdded(c, s, s.head, 0);
    AddKeepsConsistent(c, s, x, 0);
    AddKeepsBlocks(c, s, x, 0);
    var s1 := Add(c, s, x, 0);
    PlainIsAdded(c, s1, s.head, 1);
    AddKeepsConsistent(c, s1, y, 0);
    AddKeepsBlocks(c, s1, y, 0);
    AddAllNext(c, NewStore(c, genesis), run, x);
    AddAllNext(c, NewStore(c, genesis), run + [(x, 0)], y);
    run := run + [(x, 0)] + [(y, 0)];
  }

  /** The first block above genesis, proposed by 1. */
  function First(c: Crypto, genesis: Block): Block {
    Plain(1, c.header(genesis.header), genesis.header.timestamp + 1, 1)
  }

  /** A block on the first one, proposed by 2 or a later address. */
  function Sibling(c: Crypto, genesis: Block, delay: nat): Block {
    Plain(2, c.header(First(c, genesis).header), genesis.header.timestamp + 2 + delay, 2 + delay)
  }

  function SiblingRun(c: Crypto, genesis: Block): seq<(Block, Hash)> {
    [(First(c, genesis), 0), (Sibling(c, genesis, 0), 0), (Sibling(c, genesis, 1), 0)]
  }

  lemma SiblingsAreStored(c: Crypto, genesis: Block)
    requires SoundHashing(c) && IsGenesis(genesis)
    ensures var s := AddAll(c, NewStore(c, genesis), SiblingRun(c, genesis));
      && Consistent(c, s) && s.genesis == c.header(genesis.header)
      && s.blocks == map[
           c.header(genesis.header) := genesis,
           c.header(First(c, genesis).header) := First(c, genesis),
           c.header(Sibling(c, genesis, 0).header) := Sibling(c, genesis, 0),
           c.header(Sibling(c, genesis, 1).header) := Sibling(c, genesis, 1)]
  {
    var run := SiblingRun(c, genesis);
    var s0 := NewStore(c, genesis);
    var s1 := Add(c, s0, run[0].0, 0);
    var s2 := Add(c, s1, run[1].0, 0);
    var s3 := Add(c, s2, run[2].0, 0);
    assert AddAll(c, s0, run) == AddAll(c, s1, run[1..]) == AddAll(c, s2, run[1..][1..]) == s3;
    NewIsConsistent(c, genesis);
    RunsAreConsistent(c, s0, run);
  }

  /** The lowest common ancestor of two siblings is their parent. */
  lemma SiblingsShareParent(t: Tree, g: Hash, a: Hash, b: Hash, x: Hash)
    requires WellFormed(t, g) && a in t && b in t && x in t && a != b
    requires t[a].header.parentHash == x == t[b].header.parentHash
    requires Height(t, a) == Height(t, b) > 0
    ensures Lowest(t, g, a, b) == x
  {
    GenesisIsBottom(t, g, a);
    GenesisIsBottom(t, g, b);
  }

  /** For two siblings above the first block the search skips their common parent and answers genesis. */
  lemma EqualHeightsMissTheParent(c: Crypto, genesis: Block)
    requires SoundHashing(c) && IsGenesis(genesis)
    ensures exists run, a, b :: var s := AddAll(c, NewStore(c, genesis), run);
      && WellFormed(s.blocks, s.genesis) && a in s.blocks && b in s.blocks
      && s.blocks[a].header.parentHash == s.blocks[b].header.parentHash == Lowest(s.blocks, s.genesis, a, b)
      && Lowest(s.blocks, s.genesis, a, b) != s.genesis
      && SearchOutcome(s.blocks, s.genesis, a, b) == Some(s.genesis)
  {
    var run := SiblingRun(c, genesis);
    var a, b := c.header(Sibling(c, genesis, 0).header), c.header(Sibling(c, genesis, 1).header);
    var s := AddAll(c, NewStore(c, genesis), run);
    SiblingsAreStored(c, genesis);
    SiblingsShareParent(s.blocks, s.genesis, a, b, c.header(First(c, genesis).header));
    assert SearchOutcome(s.blocks, s.genesis, a, b) == Some(s.genesis);
  }

  /** Along an index followed so far, the next indexed block is valid exactly when the index still follows it. */
  lemma VerifyStep(c: Crypto, s: Store, i: nat)
    requires SoundHashing(c) && Consistent(c, s) && 0 < i <= Height(s.blocks, s.head)
    requires i - 1 in s.byNumber && IndexFollows(s, s.byNumber[i - 1])
    ensures i in s.byNumber && s.byNumber[i] in s.blocks
    ensures Validate(s.blocks[s.byNumber[i]], s.blocks[s.byNumber[i - 1]].header, c.header, c.rootOk).None? <==>
            IndexFollows(s, s.byNumber[i])
    ensures IndexFollows(s, s.head) ==> IndexFollows(s, s.byNumber[i])
  {
    IndexIsFull(c, s, i);
    IndexIsFull(c, s, i - 1);
    var below, next := s.byNumber[i - 1], s.byNumber[i];
    assert Linked(c, s, below) && Linked(c, s, next);
    GenesisIsBottom(s.blocks, s.genesis, next);
    assert Up(s.blocks, next, 1) == s.blocks[next].header.parentHash by { assert Up(s.blocks, next, 0) == next; }
    if IndexFollows(s, next) {
      assert HoldsAncestor(s, next, i - 1);
    }
    if s.blocks[next].header.parentHash == below {
      forall n: nat | n <= i ensures HoldsAncestor(s, next, n) {
        if n < i {
          assert HoldsAncestor(s, below, n);
          StepUp(s.blocks, next, i - n);
        }
      }
    }
    if IndexFollows(s, s.head) {
      IndexedAncestorFollows(c, s, i);
    }
  }

  // ----- the stateful object

  class Blockchain {
    const crypto: Crypto
    const state: WorldState
    var blocks: Tree
    var byNumber: map<nat, Hash>
    var head: Hash
    var genesis: Hash
    var receipts: map<Hash, Execution.Receipt>

    ghost function Value(): Store
      reads this
    {
      Store(blocks, byNumber, head, genesis)
    }

    constructor FromGenesis(crypto: Crypto, block: Block)
      requires IsGenesis(block)
      ensures this.crypto == crypto && fresh(state)
      ensures Value() == NewStore(crypto, block)
      ensures state.Value() == World(map[], []) && receipts == map[]
    {
      this.crypto := crypto;
      state := new WorldState();
      var h := crypto.header(block.header);
      blocks, byNumber, head, genesis := map[h := block], map[0 := h], h, h;
      receipts := map[];
    }

    /** Starts a chain, or refuses a first block that is not a genesis block. */
    static method New(crypto: Crypto, block: Block) returns (r: Result<Blockchain, ChainError>)
      ensures r.Success? <==> IsGenesis(block)
      ensures r.Success? ==>
        && fresh(r.value) && fresh(r.value.state) && r.value.crypto == crypto
        && r.value.Value() == NewStore(crypto, block)
        && r.value.state.Value() == World(map[], []) && r.value.receipts == map[]
      ensures r.Failure? ==> r.error == NotGenesis
    {
      if !IsGenesis(block) {
        return Failure(NotGenesis);
      }
      var chain := new Blockchain.FromGenesis(crypto, block);
      return Success(chain);
    }

    method AddBlock(b: Block) returns (r: Option<ChainError>)
      modifies `blocks, `byNumber, `head
      ensures r == Refusal(crypto, old(Value()), b, crypto.stateRoot(state.accounts))
      ensures Value() == Add(crypto, old(Value()), b, crypto.stateRoot(state.accounts))
    {
      if b.header.parentHash !in blocks {
        return Some(ChainError.BlockNotFound(b.header.parentHash));
      }
      var invalid := Validate(b, blocks[b.header.parentHash].header, crypto.header, crypto.rootOk);
      if invalid.Some? {
        return Some(Invalid(invalid.value));
      }
      if b.header.stateRoot != crypto.stateRoot(state.accounts) {
        return Some(StateRootMismatch);
      }
      var h := crypto.header(b.header);
      blocks, byNumber, head := blocks[h := b], byNumber[b.header.number := h], h;
      return None;
    }

    /** Verification succeeds exactly when the index is the head's ancestry; no height is ever missing. */
    method VerifyChain() returns (r: Option<ChainError>)
      requires SoundHashing(crypto) && Consistent(crypto, Value())
      ensures r.None? <==> IndexFollows(Value(), head)
      ensures r.Some? ==> r.value.Invalid?
    {
      var current := blocks[genesis];
      var height := blocks[head].header.number;
      var i := 1;
      while i <= height
        invariant 1 <= i <= height + 1
        invariant i - 1 in byNumber && byNumber[i - 1] in blocks && current == blocks[byNumber[i - 1]]
        invariant IndexFollows(Value(), byNumber[i - 1])
      {
        VerifyStep(crypto, Value(), i);
        var next := blocks[byNumber[i]];  // the source's missing-block branch is dead
        var invalid := Validate(next, current.header, crypto.header, crypto.rootOk);
        if invalid.Some? {
          return Some(Invalid(invalid.value));
        }
        current := next;
        i := i + 1;
      }
      return None;
    }

    /** A success leaves the pure transaction's accounts; a failure leaves everything as it was. */
    method ExecuteTransaction(tx: Transaction) returns (r: Result<Execution.Receipt, Execution.TxError>)
      requires head in blocks
      modifies `receipts, state
      ensures match Execution.Apply(old(state.accounts), tx)
        case Success(accounts) =>
          && r == Success(Execution.Receipt(
               crypto.transaction(tx), Height(blocks, head) + 1, tx.from, Execution.Recipient(tx), Execution.GAS_USED))
          && state.Value() == World(accounts, old(state.modifications))
          && receipts == old(receipts)[crypto.transaction(tx) := r.value]
        case Failure(e) =>
          && r == Failure(e)
          && state.Value() == old(state.Value())
          && receipts == old(receipts)
    {
      if !ValidBasic(tx) {
        return Failure(Execution.InvalidTx);
      }
      var sender := GetAccount(state.accounts, tx.from);
      if tx.nonce != sender.nonce {
        return Failure(Execution.NonceMismatch);
      }
      if sender.balance < Execution.MaxGasCost(tx) {
        return Failure(Execution.InsufficientBalance);
      }
      OuterOfBegin(state.Value());
      state.TakeCheckpoint();
      r := ExecuteTransactionType(tx);
      if r.Success? {
        state.CommitFrame();
      } else {
        state.RollbackFrame();
      }
    }

    method ExecuteTransactionType(tx: Transaction) returns (r: Result<Execution.Receipt, Execution.TxError>)
      requires head in blocks
      modifies `receipts, state
      ensures Rollback(state.Value()) == Rollback(old(state.Value()))
      ensures Outer(state.modifications) == Outer(old(state.modifications))
      ensures match Execution.Body(old(state.accounts), tx)
        case Success(accounts) =>
          && r == Success(Execution.Receipt(
               crypto.transaction(tx), Height(blocks, head) + 1, tx.from, Execution.Recipient(tx), Execution.GAS_USED))
          && state.accounts == accounts
          && receipts == old(receipts)[crypto.transaction(tx) := r.value]
        case Failure(e) =>
          r == Failure(e) && receipts == old(receipts)
    {
      var failed := ChangeAccounts(tx);
      if failed.Some? {
        return Failure(failed.value);
      }
      var receipt := Execution.Receipt(
        crypto.transaction(tx), blocks[head].header.number + 1, tx.from, Execution.Recipient(tx), Execution.GAS_USED);
      receipts := receipts[crypto.transaction(tx) := receipt];
      return Success(receipt);
    }

    /** Nonce, type-specific effect, fee. */
    method ChangeAccounts(tx: Transaction) returns (failed: Option<Execution.TxError>)
      modifies state
      ensures Rollback(state.Value()) == Rollback(old(state.Value()))
      ensures Outer(state.modifications) == Outer(old(state.modifications))
      ensures match Execution.Body(old(state.accounts), tx)
        case Success(accounts) => failed.None? && state.accounts == accounts
        case Failure(e) => failed == Some(e)
    {
      var sender := GetAccount(state.accounts, tx.from);
      state.SetAccount(tx.from, sender.(nonce := Execution.NextNonce(sender.nonce)));
      assert state.accounts == Execution.Bumped(old(state.accounts), tx.from);
      failed := ApplyType(tx);
      if failed.None? {
        failed := ChargeFee(tx);
      }
    }

    method ChargeFee(tx: Transaction) returns (failed: Option<Execution.TxError>)
      modifies state
      ensures Rollback(state.Value()) == Rollback(old(state.Value()))
      ensures Outer(state.modifications) == Outer(old(state.modifications))
      ensures match Execution.Charge(old(state.accounts), tx)
        case Success(accounts) => failed.None? && state.accounts == accounts
        case Failure(e) => failed == Some(e)
    {
      var sender := GetAccount(state.accounts, tx.from);
      var enough := Execution.Fee(tx) <= sender.balance;
      state.SetAccount(tx.from, if enough then Execution.Debited(sender, Execution.Fee(tx)) else sender);
      return if enough then None else Some(Execution.InsufficientBalance);
    }

    /** The type-specific part; a failing one may already have touched the sender's entry. */
    method ApplyType(tx: Transaction) returns (failed: Option<Execution.TxError>)
      modifies state
      ensures Rollback(state.Value()) == Rollback(old(state.Value()))
      ensures Outer(state.modifications) == Outer(old(state.modifications))
      ensures match Execution.Effect(old(state.accounts), tx)
        case Success(accounts) => failed.None? && state.accounts == accounts
        case Failure(e) => failed == Some(e)
    {
      var sender := GetAccount(state.accounts, tx.from);
      if tx.txType.Transfer? {
        var to, amount := tx.txType.to, tx.txType.amount;
        if sender.balance < amount {
          return Some(Execution.InsufficientBalance);
        }
        var receiver := GetAccount(state.accounts, to);
        state.SetAccount(tx.from, Execution.Debited(sender, amount));
        state.SetAccount(to, Execution.Credited(receiver, amount));
        return None;
      }
      var own := Execution.OwnEffect(sender, tx.txType);
      state.SetAccount(tx.from, if own.Success? then own.value else sender);
      return if own.Success? then None else Some(own.error);
    }
  }
}
