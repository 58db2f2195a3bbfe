/** What the pool accepts, and when what it holds was added (mempool.rs). */
module PoolRuns {
  import opened Types
  import opened Nested
  import opened Mempool
  import TransactionPools

  // ----- when an addition is accepted

  /** What is live when the checks after the size check are made. */
  function LiveAfterEviction(c: Config, p: Pool, victim: Hash): map<Hash, Transaction> {
    if |p.byHash| >= c.maxSize && p.pending != map[] then p.byHash - {victim} else p.byHash
  }

  /** What an eviction leaves of the live transactions and of a sender's count. */
  lemma RoomIs(c: Config, hash: Hashing, p: Pool, victim: Hash, a: Address)
    requires Valid(c, hash, p) && (p.pending != map[] ==> victim in PendingSet(p))
    ensures MakeRoom(c, p, victim).byHash == LiveAfterEviction(c, p, victim)
    ensures CountOf(MakeRoom(c, p, victim).bySender, a) == |FromSender(LiveAfterEviction(c, p, victim), a)|
  {
    MakeRoomKeepsValid(c, hash, p, victim);
  }

  /** An addition is accepted exactly under these conditions. */
  lemma AcceptedIff(c: Config, hash: Hashing, p: Pool, tx: Transaction, nonce: nat, victim: Hash)
    requires Valid(c, hash, p) && (p.pending != map[] ==> victim in PendingSet(p))
    ensures AddRefusal(c, hash, p, tx, nonce, victim).None? <==>
      && tx.signature.Some? && tx.gasLimit > 0 && tx.gasPrice > 0
      && (tx.txType.Transfer? ==> tx.txType.amount > 0)
      && (tx.txType.Stake? ==> tx.txType.amount > 0)
      && (tx.txType.Unstake? ==> tx.txType.amount > 0)
      && (tx.txType.DeployLiquidity? ==> tx.txType.amount > 0)
      && (tx.txType.WithdrawLiquidity? ==> tx.txType.amount > 0)
      && (tx.txType.ContractDeployment? ==> tx.txType.bytecode != [])
      && (tx.txType.ContractCall? ==> tx.txType.data != [])
      && hash(tx) !in p.byHash
      && (|p.byHash| < c.maxSize || p.pending != map[])
      && |FromSender(LiveAfterEviction(c, p, victim), tx.from)| < c.maxPerAccount
      && tx.gasPrice >= c.minGasPrice
      && tx.nonce >= nonce
  {
    RoomIs(c, hash, p, victim, tx.from);
  }

  /** A refusal names the first check that fails. */
  lemma RefusalIs(c: Config, hash: Hashing, p: Pool, tx: Transaction, nonce: nat, victim: Hash)
    requires Valid(c, hash, p) && (p.pending != map[] ==> victim in PendingSet(p))
    ensures var r := AddRefusal(c, hash, p, tx, nonce, victim);
      && (r == Some(Invalid) <==> !ValidBasic(tx))
      && (r == Some(Duplicate) <==> ValidBasic(tx) && hash(tx) in p.byHash)
      && (r == Some(PoolFull) ==> |p.byHash| >= c.maxSize && p.pending == map[])
      && (r == Some(TooManyFromSender) ==>
            |FromSender(LiveAfterEviction(c, p, victim), tx.from)| >= c.maxPerAccount)
      && (r == Some(PriceTooLow) ==> tx.gasPrice < c.minGasPrice)
      && (r == Some(NonceTooLow) ==> tx.gasPrice >= c.minGasPrice && tx.nonce < nonce)
  {
    RoomIs(c, hash, p, victim, tx.from);
  }

  /** What is live afterwards: the new transaction if accepted, and not the victim once the size check is passed. */
  lemma LiveAfterAdd(c: Config, hash: Hashing, p: Pool, tx: Transaction, nonce: nat, now: nat, victim: Hash)
    requires Valid(c, hash, p) && (p.pending != map[] ==> victim in PendingSet(p))
    ensures var live := Add(c, hash, p, tx, nonce, now, victim).byHash;
      match AddRefusal(c, hash, p, tx, nonce, victim)
      case None => live == LiveAfterEviction(c, p, victim)[hash(tx) := tx]
      case Some(r) => live == if r.Invalid? || r.Duplicate? || r.PoolFull? then p.byHash
                              else LiveAfterEviction(c, p, victim)
  {
    RoomIs(c, hash, p, victim, tx.from);
    InsertLive(hash, MakeRoom(c, p, victim), tx, nonce, now);
  }

  lemma InsertLive(hash: Hashing, p: Pool, tx: Transaction, nonce: nat, now: nat)
    ensures Insert(hash, p, tx, nonce, now).byHash == p.byHash[hash(tx) := tx]
  {
  }

  // ----- the stored entries and their times

  /** An accepted addition stores its transaction with the time, in the bucket of its price if it carries the account's
      nonce, and in its queue slot otherwise. */
  lemma AddedEntry(c: Config, hash: Hashing, p: Pool, tx: Transaction, nonce: nat, now: nat, victim: Hash)
    requires AddRefusal(c, hash, p, tx, nonce, victim).None?
    ensures var p' := Add(c, hash, p, tx, nonce, now, victim);
      if tx.nonce == nonce then At(p'.pending, tx.gasPrice, hash(tx)) == Some(Entry(tx, now))
      else At(p'.queued, tx.from, tx.nonce) == Some(Entry(tx, now))
  {
  }

  /** A promotion moves the entry as it is, time included, to the bucket of its price. */
  lemma PromotedEntry(hash: Hashing, p: Pool, a: Address, n: nat)
    requires At(p.queued, a, n).Some?
    ensures var p', entry := Promote(hash, p, a, n), At(p.queued, a, n).value;
      At(p'.pending, entry.tx.gasPrice, hash(entry.tx)) == Some(entry) && At(p'.queued, a, n).None?
  {
  }

  /** Some event of the log added the entry, at its time. */
  ghost predicate AddedBy(log: seq<Event>, entry: Entry) {
    exists i :: 0 <= i < |log| && log[i].AddTx? && log[i].tx == entry.tx && log[i].now == entry.addedAt
  }

  /** So did some event every entry of the table. */
  ghost predicate AllFrom(m: Table<nat, nat, Entry>, log: seq<Event>) {
    forall a: nat, b: nat {:trigger At(m, a, b)} :: At(m, a, b).Some? ==> AddedBy(log, At(m, a, b).value)
  }

  ghost predicate EntriesFrom(p: Pool, log: seq<Event>) {
    AllFrom(p.pending, log) && AllFrom(p.queued, log)
  }

  lemma PutFrom(m: Table<nat, nat, Entry>, a: nat, b: nat, entry: Entry, log: seq<Event>)
    requires AllFrom(m, log) && AddedBy(log, entry)
    ensures AllFrom(Put(m, a, b, entry), log)
  {
    var r := Put(m, a, b, entry);
    forall x: nat, y: nat | At(r, x, y).Some? ensures AddedBy(log, At(r, x, y).value) {
      assert (x, y) != (a, b) ==> At(r, x, y) == At(m, x, y);
    }
  }

  lemma DropFrom(m: Table<nat, nat, Entry>, a: nat, b: nat, log: seq<Event>)
    requires AllFrom(m, log)
    ensures AllFrom(Drop(m, a, b), log) && AllFrom(Pull(m, a, b), log)
  {
    var r, s := Drop(m, a, b), Pull(m, a, b);
    forall x: nat, y: nat | At(r, x, y).Some? ensures AddedBy(log, At(r, x, y).value) {
      assert (x, y) != (a, b) ==> At(r, x, y) == At(m, x, y);
    }
    forall x: nat, y: nat | At(s, x, y).Some? ensures AddedBy(log, At(s, x, y).value) {
      assert (x, y) != (a, b) ==> At(s, x, y) == At(m, x, y);
    }
  }

  lemma LongerLog(m: Table<nat, nat, Entry>, log: seq<Event>, e: Event)
    requires AllFrom(m, log)
    ensures AllFrom(m, log + [e])
  {
    forall a: nat, b: nat | At(m, a, b).Some? ensures AddedBy(log + [e], At(m, a, b).value) {
      var entry := At(m, a, b).value;
      var i :| 0 <= i < |log| && log[i].AddTx? && log[i].tx == entry.tx && log[i].now == entry.addedAt;
      assert (log + [e])[i] == log[i];
    }
  }

  lemma RemoveEntries(p: Pool, h: Hash, log: seq<Event>)
    requires EntriesFrom(p, log)
    ensures EntriesFrom(Remove(p, h), log)
  {
    if h in p.byHash {
      var tx := p.byHash[h];
      DropFrom(p.pending, tx.gasPrice, h, log);
      DropFrom(p.queued, tx.from, tx.nonce, log);
    }
  }

  lemma {:induction false} RemoveAllEntries(p: Pool, hashes: seq<Hash>, log: seq<Event>)
    requires EntriesFrom(p, log)
    ensures EntriesFrom(RemoveAll(p, hashes), log)
  {
    if hashes != [] {
      RemoveAllEntries(p, hashes[..|hashes| - 1], log);
      RemoveEntries(RemoveAll(p, hashes[..|hashes| - 1]), hashes[|hashes| - 1], log);
    }
  }

  lemma PromoteEntries(hash: Hashing, p: Pool, a: Address, n: nat, log: seq<Event>)
    requires EntriesFrom(p, log)
    ensures EntriesFrom(Promote(hash, p, a, n), log)
  {
    if At(p.queued, a, n).Some? {
      var entry := At(p.queued, a, n).value;
      DropFrom(p.queued, a, n, log);
      PutFrom(p.pending, entry.tx.gasPrice, hash(entry.tx), entry, log);
    }
  }

  lemma {:induction false} PromoteAllEntries(hash: Hashing, p: Pool, slots: seq<(Address, nat)>, log: seq<Event>)
    requires EntriesFrom(p, log)
    ensures EntriesFrom(PromoteAll(hash, p, slots), log)
  {
    if slots != [] {
      var before, last := slots[..|slots| - 1], slots[|slots| - 1];
      PromoteAllEntries(hash, p, before, log);
      PromoteEntries(hash, PromoteAll(hash, p, before), last.0, last.1, log);
    }
  }

  lemma InsertEntries(hash: Hashing, p: Pool, tx: Transaction, nonce: nat, now: nat, log: seq<Event>)
    requires EntriesFrom(p, log) && AddedBy(log, Entry(tx, now))
    ensures EntriesFrom(Insert(hash, p, tx, nonce, now), log)
  {
    PutFrom(p.pending, tx.gasPrice, hash(tx), Entry(tx, now), log);
    PutFrom(p.queued, tx.from, tx.nonce, Entry(tx, now), log);
  }

  lemma AddEntries(c: Config, hash: Hashing, p: Pool, e: Event, log: seq<Event>)
    requires EntriesFrom(p, log) && e.AddTx? && AddedBy(log, Entry(e.tx, e.now))
    ensures EntriesFrom(Add(c, hash, p, e.tx, e.nonce, e.now, e.victim), log)
  {
    var room := MakeRoom(c, p, e.victim);
    assert EntriesFrom(room, log) by { RemoveEntries(p, e.victim, log); }
    InsertEntries(hash, room, e.tx, e.nonce, e.now, log);
  }

  lemma StepEntries(c: Config, hash: Hashing, p: Pool, e: Event, log: seq<Event>)
    requires EntriesFrom(p, log)
    ensures EntriesFrom(Step(c, hash, p, e), log + [e])
  {
    LongerLog(p.pending, log, e);
    LongerLog(p.queued, log, e);
    match e
    case AddTx(_, _, _, _) =>
      assert (log + [e])[|log|] == e;
      AddEntries(c, hash, p, e, log + [e]);
    case RemoveTx(h) =>
      RemoveEntries(p, h, log + [e]);
    case Included(hashes, slots) =>
      RemoveAllEntries(p, hashes, log + [e]);
      PromoteAllEntries(hash, RemoveAll(p, hashes), slots, log + [e]);
    case Pruned(hashes) =>
      RemoveAllEntries(p, hashes, log + [e]);
    case Clear =>
  }

  /** In every run each entry of either index carries the time at which the run added its transaction. */
  lemma {:induction false} RunEntries(c: Config, hash: Hashing, p: Pool, log: seq<Event>, run: seq<Event>)
    requires EntriesFrom(p, log)
    ensures EntriesFrom(Run(c, hash, p, run), log + run)
    decreases |run|
  {
    if run == [] {
      assert log + run == log;
    } else {
      StepEntries(c, hash, p, run[0], log);
      RunEntries(c, hash, Step(c, hash, p, run[0]), log + [run[0]], run[1..]);
      assert log + [run[0]] + run[1..] == log + run;
    }
  }

  // ----- pruning

  /** Just after its addition at `now`, a transaction is stale from the time `now + maxAge + 1` on and no sooner. */
  lemma StaleIff(c: Config, hash: Hashing, p: Pool, tx: Transaction, nonce: nat, now: nat, victim: Hash, t: nat)
    requires Valid(c, hash, p) && (p.pending != map[] ==> victim in PendingSet(p))
    requires AddRefusal(c, hash, p, tx, nonce, victim).None?
    ensures TransactionPools.Stale(c, hash, Add(c, hash, p, tx, nonce, now, victim), hash(tx), t) <==>
            t > now + c.maxAge
  {
    var p' := Add(c, hash, p, tx, nonce, now, victim);
    AddKeepsValid(c, hash, p, tx, nonce, now, victim);
    AddedEntry(c, hash, p, tx, nonce, now, victim);
    LiveAfterAdd(c, hash, p, tx, nonce, now, victim);
    OneEntry(c, hash, p', tx);
    StaleEntry(c, hash, p', tx, t);
  }

  /** A live transaction has at most one entry, in its bucket or in its slot. */
  lemma OneEntry(c: Config, hash: Hashing, p: Pool, tx: Transaction)
    requires Valid(c, hash, p) && hash(tx) in p.byHash && p.byHash[hash(tx)] == tx
    ensures forall price: nat :: At(p.pending, price, hash(tx)).Some? ==> price == tx.gasPrice
    ensures forall a: Address, n: nat :: At(p.queued, a, n).Some? && hash(At(p.queued, a, n).value.tx) == hash(tx) ==>
      (a, n) == (tx.from, tx.nonce) && At(p.pending, tx.gasPrice, hash(tx)).None?
  {
  }

  lemma StaleEntry(c: Config, hash: Hashing, p: Pool, tx: Transaction, t: nat)
    requires Valid(c, hash, p) && hash(tx) in p.byHash && p.byHash[hash(tx)] == tx
    ensures TransactionPools.Stale(c, hash, p, hash(tx), t) <==>
      || (At(p.pending, tx.gasPrice, hash(tx)).Some? &&
          t - At(p.pending, tx.gasPrice, hash(tx)).value.addedAt > c.maxAge)
      || (At(p.queued, tx.from, tx.nonce).Some? && At(p.queued, tx.from, tx.nonce).value.tx == tx &&
          t - At(p.queued, tx.from, tx.nonce).value.addedAt > c.maxAge)
  {
    OneEntry(c, hash, p, tx);
    var h := hash(tx);
    if price :| price in p.pending && h in p.pending[price] && t - p.pending[price][h].addedAt > c.maxAge {
      assert At(p.pending, price, h).Some?;
    }
    if a, n :| a in p.queued && n in p.queued[a] && hash(p.queued[a][n].tx) == h &&
               t - p.queued[a][n].addedAt > c.maxAge {
      assert At(p.queued, a, n).Some?;
    }
  }

  /** In every run, what is stale was added by the run more than the maximum age ago. */
  lemma StaleIsOld(c: Config, hash: Hashing, run: seq<Event>, h: Hash, t: nat)
    requires PossibleRun(c, hash, EMPTY_POOL, run)
    requires TransactionPools.Stale(c, hash, Run(c, hash, EMPTY_POOL, run), h, t)
    ensures exists i :: 0 <= i < |run| && run[i].AddTx? && hash(run[i].tx) == h && t > run[i].now + c.maxAge
  {
    var p := Run(c, hash, EMPTY_POOL, run);
    EmptyIsValid(c, hash);
    RunsKeepValid(c, hash, EMPTY_POOL, run);
    RunEntries(c, hash, EMPTY_POOL, [], run);
    assert [] + run == run;
    var entry: Entry;
    if price :| price in p.pending && h in p.pending[price] && t - p.pending[price][h].addedAt > c.maxAge {
      entry := At(p.pending, price, h).value;
    } else {
      var a, n :| a in p.queued && n in p.queued[a] && hash(p.queued[a][n].tx) == h &&
                  t - p.queued[a][n].addedAt > c.maxAge;
      entry := At(p.queued, a, n).value;
    }
    assert AddedBy(run, entry) && hash(entry.tx) == h && t - entry.addedAt > c.maxAge;
  }

  // ----- eviction and promotion

  /** An eviction takes a transaction no dearer than any other pending one. */
  lemma EvictsCheapest(c: Config, hash: Hashing, p: Pool, victim: Hash, h: Hash)
    requires Valid(c, hash, p) && Evictable(p, victim) && h in PendingSet(p)
    ensures victim in p.byHash && p.byHash[victim].gasPrice <= p.byHash[h].gasPrice
  {
    var price :| price in p.pending && victim in p.pending[price] && forall q :: q in p.pending ==> price <= q;
    assert At(p.pending, price, victim).Some?;
    assert At(p.pending, p.byHash[h].gasPrice, h).Some?;
  }

  lemma {:induction false} PromoteAllTakes(hash: Hashing, p: Pool, slots: seq<(Address, nat)>, a: Address, n: nat)
    ensures At(PromoteAll(hash, p, slots).queued, a, n) == if (a, n) in slots then None else At(p.queued, a, n)
  {
    if slots != [] {
      var before, last := slots[..|slots| - 1], slots[|slots| - 1];
      assert slots == before + [last];
      PromoteAllTakes(hash, p, before, a, n);
      PromoteTakes(hash, PromoteAll(hash, p, before), last.0, last.1, a, n);
    }
  }

  lemma PromoteTakes(hash: Hashing, p: Pool, a: Address, n: nat, b: Address, m: nat)
    ensures At(Promote(hash, p, a, n).queued, b, m) == if (a, n) == (b, m) then None else At(p.queued, b, m)
  {
  }

  /** Promotion takes one entry of each sender, and that before any later nonce of the same sender. */
  lemma PromotesInOrder(hash: Hashing, p: Pool, slots: seq<(Address, nat)>, a: Address, m: nat)
    requires forall a: Address, n: nat :: (a, n) in slots <==> TransactionPools.NextInQueue(p, a, n)
    requires At(p.queued, a, m).Some?
    ensures var q := PromoteAll(hash, p, slots).queued;
      exists n: nat ::
        && n <= m && At(p.queued, a, n).Some? && At(q, a, n).None?
        && forall k: nat :: k != n ==> At(q, a, k) == At(p.queued, a, k)
  {
    var n := TransactionPools.LeastOf(p.queued[a].Keys);
    assert TransactionPools.NextInQueue(p, a, n);
    PromoteAllTakes(hash, p, slots, a, n);
    forall k: nat | k != n
      ensures At(PromoteAll(hash, p, slots).queued, a, k) == At(p.queued, a, k)
    {
      PromoteAllTakes(hash, p, slots, a, k);
      assert !TransactionPools.NextInQueue(p, a, k);
    }
  }
}
