/** The transaction pool and its four indexes (mempool.rs). */
module Mempool {
  import opened Types
  import opened Nested

  datatype Config = Config(maxSize: nat, maxPerAccount: nat, minGasPrice: nat, maxAge: nat)

  datatype Metrics = Metrics(total: nat, pendingCount: nat, queuedCount: nat, totalAdded: nat, totalRemoved: nat)

  datatype Entry = Entry(tx: Transaction, addedAt: nat)

  datatype Pool = Pool(
    pending: Table<nat, Hash, Entry>,
    queued: Table<Address, nat, Entry>,
    byHash: map<Hash, Transaction>,
    bySender: map<Address, nat>,
    metrics: Metrics)

  const EMPTY_POOL := Pool(map[], map[], map[], map[], Metrics(0, 0, 0, 0, 0))

  datatype AddError = Invalid | Duplicate | PoolFull | TooManyFromSender | PriceTooLow | NonceTooLow

  type Hashing = Transaction -> Hash

  // ----- the operations as functions

  function Decrement(n: nat): nat {
    if n == 0 then 0 else n - 1
  }

  function CountOf(bySender: map<Address, nat>, a: Address): nat {
    if a in bySender then bySender[a] else 0
  }

  function Remove(p: Pool, h: Hash): Pool {
    if h !in p.byHash then p
    else
      var tx := p.byHash[h];
      Pool(
        Drop(p.pending, tx.gasPrice, h),
        Drop(p.queued, tx.from, tx.nonce),
        p.byHash - {h},
        if CountOf(p.bySender, tx.from) <= 1 then p.bySender - {tx.from}
        else p.bySender[tx.from := CountOf(p.bySender, tx.from) - 1],
        Metrics(
          |p.byHash| - 1,
          if At(p.pending, tx.gasPrice, h).Some? then Decrement(p.metrics.pendingCount) else p.metrics.pendingCount,
          if At(p.queued, tx.from, tx.nonce).Some? then Decrement(p.metrics.queuedCount) else p.metrics.queuedCount,
          p.metrics.totalAdded,
          p.metrics.totalRemoved + 1))
  }

  function RemoveAll(p: Pool, hashes: seq<Hash>): Pool {
    if hashes == [] then p else Remove(RemoveAll(p, hashes[..|hashes| - 1]), hashes[|hashes| - 1])
  }

  /** Records a new live transaction in the hash map and the counts. */
  function Track(p: Pool, h: Hash, tx: Transaction): Pool {
    p.(byHash := p.byHash[h := tx],
       bySender := p.bySender[tx.from := CountOf(p.bySender, tx.from) + 1],
       metrics := p.metrics.(total := |p.byHash| + 1, totalAdded := p.metrics.totalAdded + 1))
  }

  function InsertPending(p: Pool, h: Hash, entry: Entry): Pool {
    Track(p, h, entry.tx).(
      pending := Put(p.pending, entry.tx.gasPrice, h, entry),
      metrics := Track(p, h, entry.tx).metrics.(pendingCount := p.metrics.pendingCount + 1))
  }

  function InsertQueued(p: Pool, h: Hash, entry: Entry): Pool {
    Track(p, h, entry.tx).(
      queued := Put(p.queued, entry.tx.from, entry.tx.nonce, entry),
      metrics := Track(p, h, entry.tx).metrics.(queuedCount := p.metrics.queuedCount + 1))
  }

  /** A transaction carrying the account's current nonce is pending; a later one waits. */
  function Insert(hash: Hashing, p: Pool, tx: Transaction, nonce: nat, now: nat): Pool {
    if tx.nonce == nonce then InsertPending(p, hash(tx), Entry(tx, now)) else InsertQueued(p, hash(tx), Entry(tx, now))
  }

  /** The pool in which a new transaction is checked: a full pool first gives up `victim`. */
  function MakeRoom(c: Config, p: Pool, victim: Hash): Pool {
    if |p.byHash| >= c.maxSize && p.pending != map[] then Remove(p, victim) else p
  }

  /** The checks of `add`, in order; those after the size check see the pool after eviction. */
  function AddRefusal(c: Config, hash: Hashing, p: Pool, tx: Transaction, nonce: nat, victim: Hash): Option<AddError> {
    var room := MakeRoom(c, p, victim);
    if !ValidBasic(tx) then Some(Invalid)
    else if hash(tx) in p.byHash then Some(Duplicate)
    else if |p.byHash| >= c.maxSize && p.pending == map[] then Some(PoolFull)
    else if CountOf(room.bySender, tx.from) >= c.maxPerAccount then Some(TooManyFromSender)
    else if tx.gasPrice < c.minGasPrice then Some(PriceTooLow)
    else if tx.nonce < nonce then Some(NonceTooLow)
    else None
  }

  /** A refusal after the size check keeps the eviction. */
  function Add(c: Config, hash: Hashing, p: Pool, tx: Transaction, nonce: nat, now: nat, victim: Hash): Pool {
    match AddRefusal(c, hash, p, tx, nonce, victim)
    case Some(Invalid) => p
    case Some(Duplicate) => p
    case Some(PoolFull) => p
    case Some(_) => MakeRoom(c, p, victim)
    case None => Insert(hash, MakeRoom(c, p, victim), tx, nonce, now)
  }

  /** Moves one queued entry to its price bucket. */
  function Promote(hash: Hashing, p: Pool, sender: Address, nonce: nat): Pool {
    match At(p.queued, sender, nonce)
    case None => p
    case Some(entry) =>
      p.(queued := Pull(p.queued, sender, nonce),
         pending := Put(p.pending, entry.tx.gasPrice, hash(entry.tx), entry),
         metrics := p.metrics.(pendingCount := p.metrics.pendingCount + 1,
                               queuedCount := Decrement(p.metrics.queuedCount)))
  }

  function PromoteAll(hash: Hashing, p: Pool, slots: seq<(Address, nat)>): Pool {
    if slots == [] then p
    else
      var last := slots[|slots| - 1];
      Promote(hash, PromoteAll(hash, p, slots[..|slots| - 1]), last.0, last.1)
  }

  // ----- what every run keeps

  predicate InPending(p: Pool, h: Hash)
    requires h in p.byHash
  {
    At(p.pending, p.byHash[h].gasPrice, h).Some?
  }

  predicate InQueue(p: Pool, h: Hash)
    requires h in p.byHash
  {
    var slot := At(p.queued, p.byHash[h].from, p.byHash[h].nonce);
    slot.Some? && slot.value.tx == p.byHash[h]
  }

  ghost function PendingSet(p: Pool): set<Hash> {
    set h | h in p.byHash && InPending(p, h)
  }

  ghost function QueuedSet(p: Pool): set<Hash> {
    set h | h in p.byHash && InQueue(p, h)
  }

  ghost function FromSender(byHash: map<Hash, Transaction>, a: Address): set<Hash> {
    set h | h in byHash && byHash[h].from == a
  }

  /** Live transactions are stored under their hash and passed the basic checks. */
  ghost predicate HashesMatch(hash: Hashing, p: Pool) {
    forall h :: h in p.byHash ==> hash(p.byHash[h]) == h && ValidBasic(p.byHash[h])
  }

  /** Every bucket entry is live, in the bucket of its price; no bucket is empty. */
  ghost predicate PendingIsLive(p: Pool) {
    && NoEmpty(p.pending)
    && forall price, h {:trigger At(p.pending, price, h)} :: At(p.pending, price, h).Some? ==>
         && h in p.byHash
         && p.byHash[h] == At(p.pending, price, h).value.tx
         && p.byHash[h].gasPrice == price
  }

  /** Every queue entry is live, in the slot of its sender and nonce, and not pending. */
  ghost predicate QueueIsLive(hash: Hashing, p: Pool) {
    forall a, n {:trigger At(p.queued, a, n)} :: At(p.queued, a, n).Some? ==>
      var tx := At(p.queued, a, n).value.tx;
      && tx.from == a && tx.nonce == n
      && hash(tx) in p.byHash
      && p.byHash[hash(tx)] == tx
      && !InPending(p, hash(tx))
  }

  /** The three indexes agree with the hash map. */
  ghost predicate IndexesLive(hash: Hashing, p: Pool) {
    HashesMatch(hash, p) && PendingIsLive(p) && QueueIsLive(hash, p)
  }

  ghost predicate SendersCounted(c: Config, byHash: map<Hash, Transaction>, bySender: map<Address, nat>) {
    && (forall a :: CountOf(bySender, a) == |FromSender(byHash, a)| <= c.maxPerAccount)
    && (forall a :: a in bySender ==> bySender[a] > 0)
  }

  ghost predicate Counted(c: Config, p: Pool) {
    && |p.byHash| <= c.maxSize
    && p.metrics.total == |p.byHash|
    && p.metrics.totalAdded == p.metrics.totalRemoved + |p.byHash|
    && p.metrics.pendingCount == |PendingSet(p)|
    && p.metrics.queuedCount >= |QueuedSet(p)|
  }

  ghost predicate Valid(c: Config, hash: Hashing, p: Pool) {
    && IndexesLive(hash, p)
    && SendersCounted(c, p.byHash, p.bySender)
    && Counted(c, p)
  }

  /** The hash holding the queue slot of `tx`, if any. */
  ghost function SlotHolder(hash: Hashing, p: Pool, tx: Transaction): set<Hash> {
    match At(p.queued, tx.from, tx.nonce)
    case None => {}
    case Some(entry) => {hash(entry.tx)}
  }

  lemma SlotHolderIsQueued(hash: Hashing, p: Pool, tx: Transaction)
    requires HashesMatch(hash, p) && QueueIsLive(hash, p)
    ensures SlotHolder(hash, p, tx) <= QueuedSet(p) && SlotHolder(hash, p, tx) !! PendingSet(p)
    ensures SlotHolder(hash, p, tx) == {} <==> At(p.queued, tx.from, tx.nonce).None?
  {
  }

  // ----- removal

  lemma RemoveKeepsIndexes(hash: Hashing, p: Pool, h: Hash)
    requires IndexesLive(hash, p)
    ensures IndexesLive(hash, Remove(p, h))
  {
    if h in p.byHash {
      var p' := Remove(p, h);
      forall a, n | At(p'.queued, a, n).Some?
        ensures var tx := At(p'.queued, a, n).value.tx;
          && tx.from == a && tx.nonce == n
          && hash(tx) in p'.byHash && p'.byHash[hash(tx)] == tx && !InPending(p', hash(tx))
      {
        assert At(p.queued, a, n) == At(p'.queued, a, n);
      }
    }
  }

  lemma RemoveKeepsSenders(c: Config, p: Pool, h: Hash)
    requires SendersCounted(c, p.byHash, p.bySender)
    ensures SendersCounted(c, Remove(p, h).byHash, Remove(p, h).bySender)
  {
    if h in p.byHash {
      var p', from := Remove(p, h), p.byHash[h].from;
      assert h in FromSender(p.byHash, from);
      forall a ensures CountOf(p'.bySender, a) == |FromSender(p'.byHash, a)| <= c.maxPerAccount {
        assert FromSender(p'.byHash, a) == FromSender(p.byHash, a) - {h};
      }
    }
  }

  /** What a removal takes from the two index sets: the transaction itself, and whatever holds its queue slot. */
  lemma RemoveSets(hash: Hashing, p: Pool, h: Hash)
    requires IndexesLive(hash, p) && h in p.byHash
    ensures var tx := p.byHash[h];
      && PendingSet(Remove(p, h)) == PendingSet(p) - {h}
      && QueuedSet(Remove(p, h)) == QueuedSet(p) - SlotHolder(hash, p, tx)
      && (h in PendingSet(p) <==> At(p.pending, tx.gasPrice, h).Some?)
  {
    var tx, p' := p.byHash[h], Remove(p, h);
    forall k ensures k in PendingSet(p') <==> k in PendingSet(p) - {h} {
      if k in p'.byHash {
        assert p'.byHash[k] == p.byHash[k];
      }
    }
    forall k ensures k in QueuedSet(p') <==> k in QueuedSet(p) - SlotHolder(hash, p, tx) {
      QueuedAfterRemove(hash, p, h, k);
    }
  }

  lemma QueuedAfterRemove(hash: Hashing, p: Pool, h: Hash, k: Hash)
    requires IndexesLive(hash, p) && h in p.byHash
    ensures var slot := At(p.queued, p.byHash[h].from, p.byHash[h].nonce);
      k in QueuedSet(Remove(p, h)) <==> k in QueuedSet(p) && !(slot.Some? && hash(slot.value.tx) == k)
  {
    var tx, p' := p.byHash[h], Remove(p, h);
    if k in p.byHash {
      var other := p.byHash[k];
      if (other.from, other.nonce) == (tx.from, tx.nonce) {
        assert At(p'.queued, other.from, other.nonce).None?;
      } else {
        assert At(p'.queued, other.from, other.nonce) == At(p.queued, other.from, other.nonce);
      }
    }
  }

  lemma RemoveKeepsValid(c: Config, hash: Hashing, p: Pool, h: Hash)
    requires Valid(c, hash, p)
    ensures Valid(c, hash, Remove(p, h))
  {
    if h in p.byHash {
      RemoveKeepsIndexes(hash, p, h);
      RemoveKeepsSenders(c, p, h);
      RemoveSets(hash, p, h);
      SlotHolderIsQueued(hash, p, p.byHash[h]);
      assert (p.byHash - {h}).Keys == p.byHash.Keys - {h};
    }
  }

  lemma {:induction false} RemoveAllKeepsValid(c: Config, hash: Hashing, p: Pool, hashes: seq<Hash>)
    requires Valid(c, hash, p)
    ensures Valid(c, hash, RemoveAll(p, hashes))
  {
    if hashes != [] {
      RemoveAllKeepsValid(c, hash, p, hashes[..|hashes| - 1]);
      RemoveKeepsValid(c, hash, RemoveAll(p, hashes[..|hashes| - 1]), hashes[|hashes| - 1]);
    }
  }

  lemma RemoveTakes(p: Pool, h: Hash, k: Hash)
    ensures k in Remove(p, h).byHash <==> k in p.byHash && k != h
  {
  }

  lemma {:induction false} RemoveAllTakes(p: Pool, hashes: seq<Hash>, k: Hash)
    ensures k in RemoveAll(p, hashes).byHash <==> k in p.byHash && k !in hashes
  {
    if hashes != [] {
      var before, last := hashes[..|hashes| - 1], hashes[|hashes| - 1];
      RemoveAllTakes(p, before, k);
      RemoveTakes(RemoveAll(p, before), last, k);
      assert k in hashes <==> k in before || k == last by { assert hashes == before + [last]; }
    }
  }

  // ----- insertion

  /** An entry for a transaction that is not live yet. */
  ghost predicate IsNew(hash: Hashing, p: Pool, h: Hash, entry: Entry) {
    h == hash(entry.tx) && h !in p.byHash && ValidBasic(entry.tx)
  }

  lemma InsertPendingSets(hash: Hashing, p: Pool, h: Hash, entry: Entry)
    requires IndexesLive(hash, p) && IsNew(hash, p, h, entry)
    ensures var p' := InsertPending(p, h, entry);
      PendingSet(p') == PendingSet(p) + {h} && QueuedSet(p') == QueuedSet(p)
  {
    var p' := InsertPending(p, h, entry);
    forall k | k in p.byHash ensures InPending(p', k) <==> InPending(p, k) {
      assert At(p'.pending, p.byHash[k].gasPrice, k) == At(p.pending, p.byHash[k].gasPrice, k);
    }
    assert !InQueue(p', h) by {
      var slot := At(p.queued, entry.tx.from, entry.tx.nonce);
      assert slot.Some? ==> hash(slot.value.tx) in p.byHash;
    }
  }

  lemma InsertQueuedSets(hash: Hashing, p: Pool, h: Hash, entry: Entry)
    requires IndexesLive(hash, p) && IsNew(hash, p, h, entry)
    ensures var p' := InsertQueued(p, h, entry);
      PendingSet(p') == PendingSet(p) && QueuedSet(p') == QueuedSet(p) + {h} - SlotHolder(hash, p, entry.tx)
  {
    var p', tx := InsertQueued(p, h, entry), entry.tx;
    assert !InPending(p', h) by { assert At(p.pending, tx.gasPrice, h).None?; }
    forall k | k in p.byHash ensures InQueue(p', k) <==> InQueue(p, k) && k !in SlotHolder(hash, p, tx) {
      var other := p.byHash[k];
      assert At(p'.queued, other.from, other.nonce) ==
        if (other.from, other.nonce) == (tx.from, tx.nonce) then Some(entry) else At(p.queued, other.from, other.nonce);
    }
    assert h !in SlotHolder(hash, p, tx) by { SlotHolderIsQueued(hash, p, tx); }
  }

  lemma InsertPendingKeepsIndexes(hash: Hashing, p: Pool, h: Hash, entry: Entry)
    requires IndexesLive(hash, p) && IsNew(hash, p, h, entry)
    ensures IndexesLive(hash, InsertPending(p, h, entry))
  {
    var p' := InsertPending(p, h, entry);
    forall a, n | At(p'.queued, a, n).Some?
      ensures var other := At(p'.queued, a, n).value.tx;
        && other.from == a && other.nonce == n
        && hash(other) in p'.byHash && p'.byHash[hash(other)] == other && !InPending(p', hash(other))
    {
      var other := At(p.queued, a, n).value.tx;
      assert hash(other) != h;
      assert At(p'.pending, other.gasPrice, hash(other)) == At(p.pending, other.gasPrice, hash(other));
    }
  }

  lemma InsertQueuedKeepsIndexes(hash: Hashing, p: Pool, h: Hash, entry: Entry)
    requires IndexesLive(hash, p) && IsNew(hash, p, h, entry)
    ensures IndexesLive(hash, InsertQueued(p, h, entry))
  {
    var p' := InsertQueued(p, h, entry);
    assert At(p.pending, entry.tx.gasPrice, h).None?;
    forall a, n | At(p'.queued, a, n).Some?
      ensures var other := At(p'.queued, a, n).value.tx;
        && other.from == a && other.nonce == n
        && hash(other) in p'.byHash && p'.byHash[hash(other)] == other && !InPending(p', hash(other))
    {
      if (a, n) != (entry.tx.from, entry.tx.nonce) {
        assert At(p'.queued, a, n) == At(p.queued, a, n);
        assert hash(At(p.queued, a, n).value.tx) != h;
      }
    }
  }

  lemma TrackKeepsSenders(c: Config, byHash: map<Hash, Transaction>, bySender: map<Address, nat>, h: Hash,
                          tx: Transaction)
    requires SendersCounted(c, byHash, bySender) && h !in byHash && CountOf(bySender, tx.from) < c.maxPerAccount
    ensures SendersCounted(c, byHash[h := tx], bySender[tx.from := CountOf(bySender, tx.from) + 1])
  {
    var counts := bySender[tx.from := CountOf(bySender, tx.from) + 1];
    forall a ensures CountOf(counts, a) == |FromSender(byHash[h := tx], a)| <= c.maxPerAccount {
      assert CountOf(bySender, a) == |FromSender(byHash, a)| <= c.maxPerAccount;
      if a == tx.from {
        assert FromSender(byHash[h := tx], a) == FromSender(byHash, a) + {h};
      } else {
        assert FromSender(byHash[h := tx], a) == FromSender(byHash, a);
      }
    }
  }

  lemma TrackSize(p: Pool, h: Hash, tx: Transaction)
    requires h !in p.byHash
    ensures |Track(p, h, tx).byHash| == |p.byHash| + 1 && Track(p, h, tx).byHash.Keys == p.byHash.Keys + {h}
  {
    assert p.byHash[h := tx].Keys == p.byHash.Keys + {h};
  }

  lemma InsertPendingKeepsCounts(c: Config, hash: Hashing, p: Pool, h: Hash, entry: Entry)
    requires IndexesLive(hash, p) && IsNew(hash, p, h, entry) && Counted(c, p) && |p.byHash| < c.maxSize
    ensures Counted(c, InsertPending(p, h, entry))
  {
    InsertPendingSets(hash, p, h, entry);
    TrackSize(p, h, entry.tx);
    assert |PendingSet(p) + {h}| == |PendingSet(p)| + 1;
  }

  lemma InsertQueuedKeepsCounts(c: Config, hash: Hashing, p: Pool, h: Hash, entry: Entry)
    requires IndexesLive(hash, p) && IsNew(hash, p, h, entry) && Counted(c, p) && |p.byHash| < c.maxSize
    ensures Counted(c, InsertQueued(p, h, entry))
  {
    InsertQueuedSets(hash, p, h, entry);
    TrackSize(p, h, entry.tx);
    SmallerSet(QueuedSet(InsertQueued(p, h, entry)), QueuedSet(p) + {h});
  }

  /** What an insertion needs of the pool it goes into. */
  ghost predicate HasRoom(c: Config, p: Pool, tx: Transaction) {
    |p.byHash| < c.maxSize && CountOf(p.bySender, tx.from) < c.maxPerAccount
  }

  lemma InsertPendingKeepsValid(c: Config, hash: Hashing, p: Pool, h: Hash, entry: Entry)
    requires Valid(c, hash, p) && IsNew(hash, p, h, entry) && HasRoom(c, p, entry.tx)
    ensures Valid(c, hash, InsertPending(p, h, entry))
  {
    TrackKeepsSenders(c, p.byHash, p.bySender, h, entry.tx);
    InsertPendingKeepsIndexes(hash, p, h, entry);
    InsertPendingKeepsCounts(c, hash, p, h, entry);
  }

  lemma InsertQueuedKeepsValid(c: Config, hash: Hashing, p: Pool, h: Hash, entry: Entry)
    requires Valid(c, hash, p) && IsNew(hash, p, h, entry) && HasRoom(c, p, entry.tx)
    ensures Valid(c, hash, InsertQueued(p, h, entry))
  {
    TrackKeepsSenders(c, p.byHash, p.bySender, h, entry.tx);
    InsertQueuedKeepsIndexes(hash, p, h, entry);
    InsertQueuedKeepsCounts(c, hash, p, h, entry);
  }

  lemma InsertKeepsValid(c: Config, hash: Hashing, p: Pool, tx: Transaction, nonce: nat, now: nat)
    requires Valid(c, hash, p) && hash(tx) !in p.byHash && ValidBasic(tx) && HasRoom(c, p, tx)
    ensures Valid(c, hash, Insert(hash, p, tx, nonce, now))
  {
    if tx.nonce == nonce {
      InsertPendingKeepsValid(c, hash, p, hash(tx), Entry(tx, now));
    } else {
      InsertQueuedKeepsValid(c, hash, p, hash(tx), Entry(tx, now));
    }
  }

  lemma SmallerSet(a: set<Hash>, b: set<Hash>)
    requires a <= b
    ensures |a| <= |b|
  {
    assert b == a + (b - a);
  }

  lemma MakeRoomKeepsValid(c: Config, hash: Hashing, p: Pool, victim: Hash)
    requires Valid(c, hash, p) && (p.pending != map[] ==> victim in PendingSet(p))
    ensures Valid(c, hash, MakeRoom(c, p, victim))
    ensures |p.byHash| < c.maxSize || p.pending != map[] ==> |MakeRoom(c, p, victim).byHash| < c.maxSize
    ensures MakeRoom(c, p, victim).byHash.Keys <= p.byHash.Keys
  {
    RemoveKeepsValid(c, hash, p, victim);
    assert victim in p.byHash ==> |p.byHash - {victim}| == |p.byHash| - 1 by {
      assert (p.byHash - {victim}).Keys == p.byHash.Keys - {victim};
    }
  }

  /** Whichever lowest-priced transaction is evicted, an attempted addition keeps the pool valid. */
  lemma AddKeepsValid(c: Config, hash: Hashing, p: Pool, tx: Transaction, nonce: nat, now: nat, victim: Hash)
    requires Valid(c, hash, p) && (p.pending != map[] ==> victim in PendingSet(p))
    ensures Valid(c, hash, Add(c, hash, p, tx, nonce, now, victim))
  {
    MakeRoomKeepsValid(c, hash, p, victim);
    if AddRefusal(c, hash, p, tx, nonce, victim).None? {
      InsertKeepsValid(c, hash, MakeRoom(c, p, victim), tx, nonce, now);
    }
  }

  // ----- promotion

  lemma PromoteKeepsIndexes(hash: Hashing, p: Pool, a: Address, n: nat)
    requires IndexesLive(hash, p)
    ensures IndexesLive(hash, Promote(hash, p, a, n))
  {
    if At(p.queued, a, n).Some? {
      var p', tx := Promote(hash, p, a, n), At(p.queued, a, n).value.tx;
      forall b, m | At(p'.queued, b, m).Some?
        ensures var other := At(p'.queued, b, m).value.tx;
          && other.from == b && other.nonce == m
          && hash(other) in p'.byHash && p'.byHash[hash(other)] == other && !InPending(p', hash(other))
      {
        assert At(p.queued, b, m) == At(p'.queued, b, m);
        assert hash(At(p.queued, b, m).value.tx) != hash(tx);
      }
    }
  }

  lemma PromoteSets(hash: Hashing, p: Pool, a: Address, n: nat)
    requires IndexesLive(hash, p) && At(p.queued, a, n).Some?
    ensures var p', h := Promote(hash, p, a, n), hash(At(p.queued, a, n).value.tx);
      && h in QueuedSet(p) && h !in PendingSet(p)
      && PendingSet(p') == PendingSet(p) + {h}
      && QueuedSet(p') == QueuedSet(p) - {h}
  {
    var p', tx := Promote(hash, p, a, n), At(p.queued, a, n).value.tx;
    forall k | k in p.byHash
      ensures InPending(p', k) <==> InPending(p, k) || k == hash(tx)
      ensures InQueue(p', k) <==> InQueue(p, k) && k != hash(tx)
    {
      var other := p.byHash[k];
      assert At(p'.pending, other.gasPrice, k) ==
        if (other.gasPrice, k) == (tx.gasPrice, hash(tx)) then At(p.queued, a, n) else At(p.pending, other.gasPrice, k);
      assert At(p'.queued, other.from, other.nonce) ==
        if (other.from, other.nonce) == (a, n) then None else At(p.queued, other.from, other.nonce);
    }
  }

  lemma PromoteKeepsValid(c: Config, hash: Hashing, p: Pool, a: Address, n: nat)
    requires Valid(c, hash, p)
    ensures Valid(c, hash, Promote(hash, p, a, n))
  {
    if At(p.queued, a, n).Some? {
      PromoteKeepsIndexes(hash, p, a, n);
      PromoteSets(hash, p, a, n);
    }
  }

  lemma {:induction false} PromoteAllKeepsValid(c: Config, hash: Hashing, p: Pool, slots: seq<(Address, nat)>)
    requires Valid(c, hash, p)
    ensures Valid(c, hash, PromoteAll(hash, p, slots))
  {
    if slots != [] {
      var before, last := slots[..|slots| - 1], slots[|slots| - 1];
      PromoteAllKeepsValid(c, hash, p, before);
      PromoteKeepsValid(c, hash, PromoteAll(hash, p, before), last.0, last.1);
    }
  }

  lemma {:induction false} PromoteAllKeepsLive(hash: Hashing, p: Pool, slots: seq<(Address, nat)>)
    ensures PromoteAll(hash, p, slots).byHash == p.byHash
  {
    if slots != [] {
      PromoteAllKeepsLive(hash, p, slots[..|slots| - 1]);
    }
  }

  // ----- whole runs

  /** The calls of a run, with the choices hash-map iteration leaves open. */
  datatype Event =
    | AddTx(tx: Transaction, nonce: nat, now: nat, victim: Hash)
    | RemoveTx(hash: Hash)
    | Included(hashes: seq<Hash>, slots: seq<(Address, nat)>)
    | Pruned(hashes: seq<Hash>)
    | Clear

  function Step(c: Config, hash: Hashing, p: Pool, e: Event): Pool {
    match e
    case AddTx(tx, nonce, now, victim) => Add(c, hash, p, tx, nonce, now, victim)
    case RemoveTx(h) => Remove(p, h)
    case Included(hashes, slots) => PromoteAll(hash, RemoveAll(p, hashes), slots)
    case Pruned(hashes) => RemoveAll(p, hashes)
    case Clear => EMPTY_POOL
  }

  /** An eviction takes a transaction from the lowest-priced bucket. */
  ghost predicate Evictable(p: Pool, victim: Hash) {
    exists price :: price in p.pending && victim in p.pending[price] && forall q :: q in p.pending ==> price <= q
  }

  ghost predicate Possible(p: Pool, e: Event) {
    e.AddTx? && p.pending != map[] ==> Evictable(p, e.victim)
  }

  ghost predicate PossibleRun(c: Config, hash: Hashing, p: Pool, run: seq<Event>)
    decreases |run|
  {
    run == [] || (Possible(p, run[0]) && PossibleRun(c, hash, Step(c, hash, p, run[0]), run[1..]))
  }

  function Run(c: Config, hash: Hashing, p: Pool, run: seq<Event>): Pool
    decreases |run|
  {
    if run == [] then p else Run(c, hash, Step(c, hash, p, run[0]), run[1..])
  }

  lemma EmptyIsValid(c: Config, hash: Hashing)
    ensures Valid(c, hash, EMPTY_POOL) && Exact(EMPTY_POOL)
  {
    assert PendingSet(EMPTY_POOL) == {} && QueuedSet(EMPTY_POOL) == {};
    assert forall a :: FromSender(map[], a) == {};
  }

  lemma EvictableIsPending(c: Config, hash: Hashing, p: Pool, victim: Hash)
    requires Valid(c, hash, p) && Evictable(p, victim)
    ensures victim in PendingSet(p)
  {
    var price :| price in p.pending && victim in p.pending[price];
    assert At(p.pending, price, victim).Some?;
  }

  lemma StepKeepsValid(c: Config, hash: Hashing, p: Pool, e: Event)
    requires Valid(c, hash, p) && Possible(p, e)
    ensures Valid(c, hash, Step(c, hash, p, e))
  {
    match e
    case AddTx(tx, nonce, now, victim) =>
      if p.pending != map[] {
        EvictableIsPending(c, hash, p, victim);
      }
      AddKeepsValid(c, hash, p, tx, nonce, now, victim);
    case RemoveTx(h) =>
      RemoveKeepsValid(c, hash, p, h);
    case Included(hashes, slots) =>
      RemoveAllKeepsValid(c, hash, p, hashes);
      PromoteAllKeepsValid(c, hash, RemoveAll(p, hashes), slots);
    case Pruned(hashes) =>
      RemoveAllKeepsValid(c, hash, p, hashes);
    case Clear =>
      EmptyIsValid(c, hash);
  }

  /** Every run from a valid pool, such as the empty one, stays valid. */
  lemma {:induction false} RunsKeepValid(c: Config, hash: Hashing, p: Pool, run: seq<Event>)
    requires Valid(c, hash, p) && PossibleRun(c, hash, p, run)
    ensures Valid(c, hash, Run(c, hash, p, run))
    decreases |run|
  {
    if run != [] {
      StepKeepsValid(c, hash, p, run[0]);
      RunsKeepValid(c, hash, Step(c, hash, p, run[0]), run[1..]);
    }
  }

  // ----- when every live transaction is indexed

  ghost predicate Indexed(p: Pool) {
    p.byHash.Keys == PendingSet(p) + QueuedSet(p)
  }

  /** A removal orphans another transaction exactly when a pending one shares its slot with a queued one. */
  lemma RemoveIndexedIff(hash: Hashing, p: Pool, h: Hash)
    requires IndexesLive(hash, p) && Indexed(p) && h in p.byHash
    ensures Indexed(Remove(p, h)) <==> !(InPending(p, h) && At(p.queued, p.byHash[h].from, p.byHash[h].nonce).Some?)
  {
    var holder := SlotHolder(hash, p, p.byHash[h]);
    RemoveSets(hash, p, h);
    SlotHolderIsQueued(hash, p, p.byHash[h]);
    assert !InPending(p, h) ==> holder == {h} by {
      assert h in PendingSet(p) + QueuedSet(p);
    }
    SetsAfterRemoval(p.byHash.Keys, PendingSet(p), QueuedSet(p), h, holder);
    assert Remove(p, h).byHash.Keys == p.byHash.Keys - {h};
  }

  lemma SetsAfterRemoval(all: set<Hash>, pending: set<Hash>, queued: set<Hash>, h: Hash, holder: set<Hash>)
    requires all == pending + queued && holder <= queued && holder !! pending
    requires h in all && (h !in pending ==> holder == {h}) && (h in pending ==> h !in queued)
    ensures all - {h} == pending - {h} + (queued - holder) <==> !(h in pending && holder != {})
  {
    if h in pending {
      if k :| k in holder {
        assert k in all - {h} && k !in pending - {h} + (queued - holder);
      }
    }
  }

  /** A queue insertion orphans a transaction exactly when it takes an occupied slot. */
  lemma QueueIndexedIff(hash: Hashing, p: Pool, h: Hash, entry: Entry)
    requires IndexesLive(hash, p) && Indexed(p) && IsNew(hash, p, h, entry)
    ensures Indexed(InsertQueued(p, h, entry)) <==> At(p.queued, entry.tx.from, entry.tx.nonce).None?
  {
    SlotHolderIsQueued(hash, p, entry.tx);
    InsertQueuedSets(hash, p, h, entry);
    TrackSize(p, h, entry.tx);
    SetsAfterInsertion(p.byHash.Keys, PendingSet(p), QueuedSet(p), h, SlotHolder(hash, p, entry.tx));
  }

  /** A pending insertion never does. */
  lemma PendingStaysIndexed(hash: Hashing, p: Pool, h: Hash, entry: Entry)
    requires IndexesLive(hash, p) && Indexed(p) && IsNew(hash, p, h, entry)
    ensures Indexed(InsertPending(p, h, entry))
  {
    InsertPendingSets(hash, p, h, entry);
    TrackSize(p, h, entry.tx);
    SetsAfterInsertion(p.byHash.Keys, PendingSet(p), QueuedSet(p), h, {});
  }

  lemma SetsAfterInsertion(all: set<Hash>, pending: set<Hash>, queued: set<Hash>, h: Hash, holder: set<Hash>)
    requires all == pending + queued && holder <= queued && holder !! pending && h !in all
    ensures all + {h} == pending + {h} + queued
    ensures all + {h} == pending + (queued + {h} - holder) <==> holder == {}
  {
    if k :| k in holder {
      assert k in all + {h} && k !in pending + (queued + {h} - holder);
    }
  }

  lemma FirstIsQueued(c: Config, hash: Hashing, x: Transaction)
    requires c.maxSize > 0 && c.maxPerAccount > 0 && ValidBasic(x) && x.gasPrice >= c.minGasPrice && x.nonce > 0
    ensures Add(c, hash, EMPTY_POOL, x, 0, 0, 0) == InsertQueued(EMPTY_POOL, hash(x), Entry(x, 0))
    ensures var p := InsertQueued(EMPTY_POOL, hash(x), Entry(x, 0));
      IndexesLive(hash, p) && Indexed(p) && |p.byHash| == 1
  {
    EmptyIsValid(c, hash);
    InsertQueuedKeepsIndexes(hash, EMPTY_POOL, hash(x), Entry(x, 0));
    QueueIndexedIff(hash, EMPTY_POOL, hash(x), Entry(x, 0));
    TrackSize(EMPTY_POOL, hash(x), x);
  }

  /** Queueing two transactions of one sender and nonce leaves the first live and in no index. */
  lemma SlotReuseOrphans(c: Config, hash: Hashing, x: Transaction, y: Transaction)
    requires c.maxSize >= 2 && c.maxPerAccount >= 2 && ValidBasic(x) && ValidBasic(y)
    requires x.gasPrice >= c.minGasPrice && y.gasPrice >= c.minGasPrice
    requires SameSlot(x, y) && x.nonce > 0 && hash(x) != hash(y)
    ensures !Indexed(Run(c, hash, EMPTY_POOL, [AddTx(x, 0, 0, 0), AddTx(y, 0, 0, 0)]))
  {
    var first := InsertQueued(EMPTY_POOL, hash(x), Entry(x, 0));
    FirstIsQueued(c, hash, x);
    BothAreQueued(c, hash, x, y);
    QueueIndexedIff(hash, first, hash(y), Entry(y, 0));
    RunNext(c, hash, EMPTY_POOL, AddTx(x, 0, 0, 0), [AddTx(y, 0, 0, 0)]);
    RunNext(c, hash, first, AddTx(y, 0, 0, 0), []);
  }

  /** The two counts add up to the number of live transactions. */
  predicate CountsAddUp(p: Pool) {
    p.metrics.pendingCount + p.metrics.queuedCount == |p.byHash|
  }

  /** A removal keeps the counts adding up exactly when it takes one entry: a pending one whose slot is not queued, or
      else whatever is queued in its slot. */
  lemma RemoveCountsIff(c: Config, hash: Hashing, p: Pool, h: Hash)
    requires Valid(c, hash, p) && CountsAddUp(p) && h in p.byHash
    ensures CountsAddUp(Remove(p, h)) <==>
            (InPending(p, h) <==> At(p.queued, p.byHash[h].from, p.byHash[h].nonce).None?)
  {
    var tx := p.byHash[h];
    assert (p.byHash - {h}).Keys == p.byHash.Keys - {h};
    SlotHolderIsQueued(hash, p, tx);
    CountsArePositive(c, hash, p, h);
  }

  lemma CountsArePositive(c: Config, hash: Hashing, p: Pool, h: Hash)
    requires Valid(c, hash, p) && h in p.byHash
    ensures InPending(p, h) ==> p.metrics.pendingCount > 0
    ensures At(p.queued, p.byHash[h].from, p.byHash[h].nonce).Some? ==> p.metrics.queuedCount > 0
  {
    assert InPending(p, h) ==> h in PendingSet(p);
    SlotHolderIsQueued(hash, p, p.byHash[h]);
  }

  /** Insertions and promotions always keep them adding up. */
  lemma InsertAndPromoteKeepCounts(c: Config, hash: Hashing, p: Pool, h: Hash, entry: Entry, a: Address, n: nat)
    requires Valid(c, hash, p) && CountsAddUp(p) && IsNew(hash, p, h, entry)
    ensures CountsAddUp(InsertPending(p, h, entry)) && CountsAddUp(InsertQueued(p, h, entry))
    ensures CountsAddUp(Promote(hash, p, a, n))
  {
    TrackSize(p, h, entry.tx);
    if At(p.queued, a, n).Some? {
      CountsArePositive(c, hash, p, hash(At(p.queued, a, n).value.tx));
    }
  }

  /** Queueing two transactions in one slot and removing both leaves an empty pool that still counts one as queued. */
  lemma SlotReuseMiscounts(c: Config, hash: Hashing, x: Transaction, y: Transaction)
    requires c.maxSize >= 2 && c.maxPerAccount >= 2 && ValidBasic(x) && ValidBasic(y)
    requires x.gasPrice >= c.minGasPrice && y.gasPrice >= c.minGasPrice
    requires SameSlot(x, y) && x.nonce > 0 && hash(x) != hash(y)
    ensures var p := Run(c, hash, EMPTY_POOL,
        [AddTx(x, 0, 0, 0), AddTx(y, 0, 0, 0), RemoveTx(hash(y)), RemoveTx(hash(x))]);
      p.byHash == map[] && p.metrics.queuedCount == 1 && p.metrics.pendingCount == 0
  {
    var p1 := InsertQueued(EMPTY_POOL, hash(x), Entry(x, 0));
    var p2 := InsertQueued(p1, hash(y), Entry(y, 0));
    var first, second, third, fourth := AddTx(x, 0, 0, 0), AddTx(y, 0, 0, 0), RemoveTx(hash(y)), RemoveTx(hash(x));
    BothAreQueued(c, hash, x, y);
    RunNext(c, hash, EMPTY_POOL, first, [second, third, fourth]);
    RunNext(c, hash, p1, second, [third, fourth]);
    RunNext(c, hash, p2, third, [fourth]);
    RunNext(c, hash, Remove(p2, hash(y)), fourth, []);
    BothRemoved(hash, p2, x, y);
  }

  lemma RunNext(c: Config, hash: Hashing, p: Pool, e: Event, rest: seq<Event>)
    ensures Run(c, hash, p, [e] + rest) == Run(c, hash, Step(c, hash, p, e), rest)
  {
    assert ([e] + rest)[1..] == rest;
  }

  lemma BothAreQueued(c: Config, hash: Hashing, x: Transaction, y: Transaction)
    requires c.maxSize >= 2 && c.maxPerAccount >= 2 && ValidBasic(x) && ValidBasic(y)
    requires x.gasPrice >= c.minGasPrice && y.gasPrice >= c.minGasPrice
    requires SameSlot(x, y) && x.nonce > 0 && hash(x) != hash(y)
    ensures var p := InsertQueued(EMPTY_POOL, hash(x), Entry(x, 0));
      && Step(c, hash, EMPTY_POOL, AddTx(x, 0, 0, 0)) == p
      && Step(c, hash, p, AddTx(y, 0, 0, 0)) == InsertQueued(p, hash(y), Entry(y, 0))
  {
    FirstIsQueued(c, hash, x);
  }

  lemma BothRemoved(hash: Hashing, p: Pool, x: Transaction, y: Transaction)
    requires p == InsertQueued(InsertQueued(EMPTY_POOL, hash(x), Entry(x, 0)), hash(y), Entry(y, 0))
    requires SameSlot(x, y) && hash(x) != hash(y)
    ensures var p' := Remove(Remove(p, hash(y)), hash(x));
      p'.byHash == map[] && p'.metrics.queuedCount == 1 && p'.metrics.pendingCount == 0
  {
    var q := Remove(p, hash(y));
    assert q.byHash == map[hash(x) := x];
    assert At(q.queued, x.from, x.nonce).None?;
  }

  /** No two live transactions share sender and nonce, all are indexed, and the queue count is exact. */
  ghost predicate Exact(p: Pool) {
    ExactSets(p.byHash, PendingSet(p), QueuedSet(p), p.metrics.queuedCount)
  }

  ghost predicate ExactSets(byHash: map<Hash, Transaction>, pending: set<Hash>, queued: set<Hash>, count: nat) {
    Unique(byHash) && byHash.Keys == pending + queued && count == |queued|
  }

  predicate SameSlot(x: Transaction, y: Transaction) {
    x.from == y.from && x.nonce == y.nonce
  }

  ghost predicate Unique(byHash: map<Hash, Transaction>) {
    forall h, k {:trigger SameSlot(byHash[h], byHash[k])} ::
      h in byHash && k in byHash && SameSlot(byHash[h], byHash[k]) ==> h == k
  }

  ghost predicate SlotFree(p: Pool, tx: Transaction) {
    forall h {:trigger SameSlot(p.byHash[h], tx)} :: h in p.byHash ==> !SameSlot(p.byHash[h], tx)
  }

  lemma ExactShrinks(byHash: map<Hash, Transaction>, pending: set<Hash>, queued: set<Hash>, count: nat, h: Hash)
    requires ExactSets(byHash, pending, queued, count)
    ensures ExactSets(byHash - {h}, pending - {h}, queued - {h}, if h in queued then Decrement(count) else count)
  {
    assert (byHash - {h}).Keys == byHash.Keys - {h};
    if h in queued {
      assert |queued - {h}| == |queued| - 1;
    } else {
      assert queued - {h} == queued;
    }
  }

  lemma ExactMoves(byHash: map<Hash, Transaction>, pending: set<Hash>, queued: set<Hash>, count: nat, h: Hash)
    requires ExactSets(byHash, pending, queued, count) && h in queued
    ensures ExactSets(byHash, pending + {h}, queued - {h}, Decrement(count))
  {
    assert pending + {h} + (queued - {h}) == pending + queued;
    assert |queued - {h}| == |queued| - 1;
  }

  lemma ExactGrows(byHash: map<Hash, Transaction>, pending: set<Hash>, queued: set<Hash>, count: nat, h: Hash,
                   tx: Transaction)
    requires ExactSets(byHash, pending, queued, count) && h !in byHash
    requires forall k {:trigger SameSlot(byHash[k], tx)} :: k in byHash ==> !SameSlot(byHash[k], tx)
    ensures ExactSets(byHash[h := tx], pending + {h}, queued, count)
    ensures ExactSets(byHash[h := tx], pending, queued + {h}, count + 1)
  {
    assert byHash[h := tx].Keys == byHash.Keys + {h};
    assert Unique(byHash[h := tx]) by {
      assert forall k :: k in byHash ==> !SameSlot(byHash[k], tx) && !SameSlot(tx, byHash[k]);
    }
  }

  /** Where slots are unique, a removal takes the transaction alone from both sets. */
  lemma RemoveUniqueSets(hash: Hashing, p: Pool, h: Hash)
    requires IndexesLive(hash, p) && Unique(p.byHash) && h in p.byHash
    ensures PendingSet(Remove(p, h)) == PendingSet(p) - {h}
    ensures QueuedSet(Remove(p, h)) == QueuedSet(p) - {h}
    ensures At(p.queued, p.byHash[h].from, p.byHash[h].nonce).Some? <==> h in QueuedSet(p)
  {
    RemoveSets(hash, p, h);
    var slot := At(p.queued, p.byHash[h].from, p.byHash[h].nonce);
    assert slot.Some? ==> SameSlot(p.byHash[hash(slot.value.tx)], p.byHash[h]);
  }

  lemma RemoveKeepsExact(hash: Hashing, p: Pool, h: Hash)
    requires IndexesLive(hash, p) && Exact(p)
    ensures Exact(Remove(p, h))
  {
    if h in p.byHash {
      RemoveUniqueSets(hash, p, h);
      ExactShrinks(p.byHash, PendingSet(p), QueuedSet(p), p.metrics.queuedCount, h);
    }
  }

  /** Into a free slot, a queue insertion adds the transaction alone. */
  lemma InsertFreeSets(hash: Hashing, p: Pool, h: Hash, entry: Entry)
    requires IndexesLive(hash, p) && IsNew(hash, p, h, entry) && SlotFree(p, entry.tx)
    ensures PendingSet(InsertQueued(p, h, entry)) == PendingSet(p)
    ensures QueuedSet(InsertQueued(p, h, entry)) == QueuedSet(p) + {h}
  {
    InsertQueuedSets(hash, p, h, entry);
    FreeSlotHasNoHolder(hash, p, entry.tx);
  }

  lemma InsertKeepsExact(hash: Hashing, p: Pool, h: Hash, entry: Entry)
    requires IndexesLive(hash, p) && Exact(p) && IsNew(hash, p, h, entry) && SlotFree(p, entry.tx)
    ensures Exact(InsertPending(p, h, entry)) && Exact(InsertQueued(p, h, entry))
  {
    ExactGrows(p.byHash, PendingSet(p), QueuedSet(p), p.metrics.queuedCount, h, entry.tx);
    InsertPendingSets(hash, p, h, entry);
    InsertFreeSets(hash, p, h, entry);
  }

  lemma FreeSlotHasNoHolder(hash: Hashing, p: Pool, tx: Transaction)
    requires IndexesLive(hash, p) && SlotFree(p, tx)
    ensures At(p.queued, tx.from, tx.nonce).None? && SlotHolder(hash, p, tx) == {}
  {
    var slot := At(p.queued, tx.from, tx.nonce);
    assert slot.Some? ==> SameSlot(p.byHash[hash(slot.value.tx)], tx);
  }

  lemma PromoteKeepsExact(hash: Hashing, p: Pool, a: Address, n: nat)
    requires IndexesLive(hash, p) && Exact(p)
    ensures Exact(Promote(hash, p, a, n))
  {
    if At(p.queued, a, n).Some? {
      PromoteSets(hash, p, a, n);
      ExactMoves(p.byHash, PendingSet(p), QueuedSet(p), p.metrics.queuedCount, hash(At(p.queued, a, n).value.tx));
    }
  }

  lemma {:induction false} RemoveAllKeepsExact(c: Config, hash: Hashing, p: Pool, hashes: seq<Hash>)
    requires Valid(c, hash, p) && Exact(p)
    ensures Exact(RemoveAll(p, hashes))
  {
    if hashes != [] {
      var before := hashes[..|hashes| - 1];
      RemoveAllKeepsExact(c, hash, p, before);
      RemoveAllKeepsValid(c, hash, p, before);
      RemoveKeepsExact(hash, RemoveAll(p, before), hashes[|hashes| - 1]);
    }
  }

  lemma {:induction false} PromoteAllKeepsExact(c: Config, hash: Hashing, p: Pool, slots: seq<(Address, nat)>)
    requires Valid(c, hash, p) && Exact(p)
    ensures Exact(PromoteAll(hash, p, slots))
  {
    if slots != [] {
      var before, last := slots[..|slots| - 1], slots[|slots| - 1];
      PromoteAllKeepsExact(c, hash, p, before);
      PromoteAllKeepsValid(c, hash, p, before);
      PromoteKeepsExact(hash, PromoteAll(hash, p, before), last.0, last.1);
    }
  }

  /** If the event is an accepted addition, no live transaction has its sender and nonce. */
  ghost predicate TakesFreeSlot(c: Config, hash: Hashing, p: Pool, e: Event) {
    e.AddTx? && AddRefusal(c, hash, p, e.tx, e.nonce, e.victim).None? ==> SlotFree(MakeRoom(c, p, e.victim), e.tx)
  }

  ghost predicate NoReuse(c: Config, hash: Hashing, p: Pool, run: seq<Event>)
    decreases |run|
  {
    run == [] || (TakesFreeSlot(c, hash, p, run[0]) && NoReuse(c, hash, Step(c, hash, p, run[0]), run[1..]))
  }

  lemma MakeRoomKeepsExact(c: Config, hash: Hashing, p: Pool, victim: Hash)
    requires IndexesLive(hash, p) && Exact(p)
    ensures Exact(MakeRoom(c, p, victim))
  {
    RemoveKeepsExact(hash, p, victim);
  }

  lemma AdmitKeepsExact(hash: Hashing, room: Pool, tx: Transaction, nonce: nat, now: nat)
    requires IndexesLive(hash, room) && Exact(room) && IsNew(hash, room, hash(tx), Entry(tx, now)) && SlotFree(room, tx)
    ensures Exact(Insert(hash, room, tx, nonce, now))
  {
    InsertKeepsExact(hash, room, hash(tx), Entry(tx, now));
  }

  lemma AddKeepsExact(c: Config, hash: Hashing, p: Pool, tx: Transaction, nonce: nat, now: nat, victim: Hash)
    requires Valid(c, hash, p) && Exact(p) && (p.pending != map[] ==> victim in PendingSet(p))
    requires AddRefusal(c, hash, p, tx, nonce, victim).None? ==> SlotFree(MakeRoom(c, p, victim), tx)
    ensures Exact(Add(c, hash, p, tx, nonce, now, victim))
  {
    MakeRoomKeepsExact(c, hash, p, victim);
    MakeRoomKeepsValid(c, hash, p, victim);
    if AddRefusal(c, hash, p, tx, nonce, victim).None? {
      AdmitKeepsExact(hash, MakeRoom(c, p, victim), tx, nonce, now);
    }
  }

  lemma StepKeepsExact(c: Config, hash: Hashing, p: Pool, e: Event)
    requires Valid(c, hash, p) && Exact(p) && Possible(p, e) && TakesFreeSlot(c, hash, p, e)
    ensures Exact(Step(c, hash, p, e))
  {
    match e
    case AddTx(tx, nonce, now, victim) =>
      if p.pending != map[] {
        EvictableIsPending(c, hash, p, victim);
      }
      AddKeepsExact(c, hash, p, tx, nonce, now, victim);
    case RemoveTx(h) =>
      RemoveKeepsExact(hash, p, h);
    case Included(hashes, slots) =>
      RemoveAllKeepsValid(c, hash, p, hashes);
      RemoveAllKeepsExact(c, hash, p, hashes);
      PromoteAllKeepsExact(c, hash, RemoveAll(p, hashes), slots);
    case Pruned(hashes) =>
      RemoveAllKeepsExact(c, hash, p, hashes);
    case Clear =>
      EmptyIsValid(c, hash);
  }

  /** In such runs every live transaction is in exactly one index and the two counts add up. */
  lemma {:induction false} RunsKeepExact(c: Config, hash: Hashing, p: Pool, run: seq<Event>)
    requires Valid(c, hash, p) && Exact(p) && PossibleRun(c, hash, p, run) && NoReuse(c, hash, p, run)
    ensures var p' := Run(c, hash, p, run);
      && Exact(p')
      && PendingSet(p') !! QueuedSet(p')
      && p'.metrics.pendingCount + p'.metrics.queuedCount == |p'.byHash|
    decreases |run|
  {
    if run != [] {
      StepKeepsValid(c, hash, p, run[0]);
      StepKeepsExact(c, hash, p, run[0]);
      RunsKeepExact(c, hash, Step(c, hash, p, run[0]), run[1..]);
    } else {
      assert PendingSet(p) !! QueuedSet(p);
      assert |p.byHash.Keys| == |PendingSet(p)| + |QueuedSet(p)|;
    }
  }
}
