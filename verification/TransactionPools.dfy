/** The stateful transaction pool (mempool.rs). */
module TransactionPools {
  import opened Types
  import opened Nested
  import M = Mempool
  import F = BlockFilling

  /** The hashes of a list of transactions. */
  function HashesOf(hash: M.Hashing, txs: seq<Transaction>): seq<Hash> {
    if txs == [] then [] else HashesOf(hash, txs[..|txs| - 1]) + [hash(txs[|txs| - 1])]
  }

  lemma {:induction false} LeastOf(s: set<nat>) returns (least: nat)
    requires s != {}
    ensures least in s && forall q :: q in s ==> least <= q
  {
    var x :| x in s;
    least := x;
    if s != {x} {
      var y := LeastOf(s - {x});
      assert forall q :: q in s ==> q == x || q in s - {x};
      least := if x <= y then x else y;
    }
  }

  /** The slot a sender's queue would promote next. */
  predicate NextInQueue(p: M.Pool, a: Address, n: nat) {
    At(p.queued, a, n).Some? && forall m :: m in p.queued[a] ==> n <= m
  }

  /** An indexed transaction older than the configured age. */
  predicate Stale(c: M.Config, hash: M.Hashing, p: M.Pool, h: Hash, now: nat) {
    || (exists price :: price in p.pending && h in p.pending[price] && now - p.pending[price][h].addedAt > c.maxAge)
    || (exists a, n :: a in p.queued && n in p.queued[a] && hash(p.queued[a][n].tx) == h &&
                       now - p.queued[a][n].addedAt > c.maxAge)
  }

  /** The pending transaction stored under a price and hash of `slots`. */
  ghost predicate ListedIn(hash: M.Hashing, p: M.Pool, slots: set<(nat, Hash)>, tx: Transaction) {
    && (tx.gasPrice, hash(tx)) in slots
    && At(p.pending, tx.gasPrice, hash(tx)).Some?
    && At(p.pending, tx.gasPrice, hash(tx)).value.tx == tx
  }

  lemma ListedIsPending(hash: M.Hashing, p: M.Pool, slots: set<(nat, Hash)>, tx: Transaction)
    requires M.HashesMatch(hash, p) && M.PendingIsLive(p)
    requires forall price: nat, h: Hash :: (price, h) in slots <==> At(p.pending, price, h).Some?
    ensures ListedIn(hash, p, slots, tx) <==> F.IsPending(p, tx)
  {
    if F.IsPending(p, tx) {
      var price, h :| price in p.pending && h in p.pending[price] && p.pending[price][h].tx == tx;
      assert At(p.pending, price, h).Some?;
    }
  }

  /** `order` lists the slots `done` by falling price, all at least as dear as those `left`. */
  ghost predicate ListedSoFar(hash: M.Hashing, p: M.Pool, done: set<(nat, Hash)>, left: set<(nat, Hash)>,
                              order: seq<Transaction>) {
    && (forall tx :: tx in order <==> ListedIn(hash, p, done, tx))
    && (forall tx :: multiset(order)[tx] <= 1)
    && F.PricesFall(order)
    && (forall i, s :: 0 <= i < |order| && s in left ==> order[i].gasPrice >= s.0)
  }

  lemma ListOne(hash: M.Hashing, p: M.Pool, done: set<(nat, Hash)>, left: set<(nat, Hash)>,
                order: seq<Transaction>, tx: Transaction)
    requires ListedSoFar(hash, p, done, left, order) && done !! left
    requires ListedIn(hash, p, left, tx) && forall s :: s in left ==> s.0 <= tx.gasPrice
    ensures ListedSoFar(hash, p, done + {(tx.gasPrice, hash(tx))}, left - {(tx.gasPrice, hash(tx))}, order + [tx])
  {
    assert tx !in order;
  }

  class TransactionPool {
    const config: M.Config
    const hash: M.Hashing
    var pending: Table<nat, Hash, M.Entry>
    var queued: Table<Address, nat, M.Entry>
    var byHash: map<Hash, Transaction>
    var bySender: map<Address, nat>
    var metrics: M.Metrics

    ghost function Value(): M.Pool
      reads this
    {
      M.Pool(pending, queued, byHash, bySender, metrics)
    }

    constructor (config: M.Config, hash: M.Hashing)
      ensures this.config == config && this.hash == hash && Value() == M.EMPTY_POOL
      ensures M.Valid(config, hash, Value())
    {
      this.config, this.hash := config, hash;
      pending, queued, byHash, bySender := map[], map[], map[], map[];
      metrics := M.Metrics(0, 0, 0, 0, 0);
      new;
      M.EmptyIsValid(config, hash);
    }

    method Remove(h: Hash) returns (r: Option<Transaction>)
      modifies this
      ensures r == Lookup(old(byHash), h)
      ensures Value() == M.Remove(old(Value()), h)
    {
      if h !in byHash {
        return None;
      }
      var tx := byHash[h];
      byHash := byHash - {h};
      assert byHash.Keys == old(byHash).Keys - {h};
      UncountSender(tx.from);
      RemoveFromPending(h, tx.gasPrice);
      RemoveFromQueued(tx.from, tx.nonce);
      metrics := metrics.(totalRemoved := metrics.totalRemoved + 1, total := |byHash|);
      ghost var target := M.Remove(old(Value()), h);
      assert metrics == target.metrics && bySender == target.bySender;
      assert pending == target.pending && queued == target.queued && byHash == target.byHash;
      return Some(tx);
    }

    method UncountSender(a: Address)
      modifies `bySender
      ensures bySender == if M.CountOf(old(bySender), a) <= 1 then old(bySender) - {a}
                          else old(bySender)[a := M.CountOf(old(bySender), a) - 1]
    {
      if a in bySender {
        var count := M.Decrement(bySender[a]);
        bySender := if count == 0 then bySender - {a} else bySender[a := count];
      }
    }

    method RemoveFromPending(h: Hash, price: nat)
      modifies `pending, `metrics
      ensures pending == Drop(old(pending), price, h)
      ensures metrics == old(metrics).(pendingCount :=
        if At(old(pending), price, h).Some? then M.Decrement(old(metrics).pendingCount) else old(metrics).pendingCount)
    {
      if At(pending, price, h).Some? {
        metrics := metrics.(pendingCount := M.Decrement(metrics.pendingCount));
      }
      pending := Drop(pending, price, h);
    }

    method RemoveFromQueued(a: Address, nonce: nat)
      modifies `queued, `metrics
      ensures queued == Drop(old(queued), a, nonce)
      ensures metrics == old(metrics).(queuedCount :=
        if At(old(queued), a, nonce).Some? then M.Decrement(old(metrics).queuedCount) else old(metrics).queuedCount)
    {
      if At(queued, a, nonce).Some? {
        metrics := metrics.(queuedCount := M.Decrement(metrics.queuedCount));
      }
      queued := Drop(queued, a, nonce);
    }

    /** Picks a transaction of the lowest price, if anything is pending. */
    method LowestPriced() returns (victim: Hash)
      requires NoEmpty(pending)
      ensures pending != map[] ==> M.Evictable(Value(), victim)
    {
      victim := ZERO_HASH;
      if pending != map[] {
        assert pending.Keys != {};
        ghost var least := LeastOf(pending.Keys);
        var lowest :| lowest in pending && forall q :: q in pending ==> lowest <= q;
        assert pending[lowest].Keys != {};
        victim :| victim in pending[lowest];
      }
    }

    method Add(tx: Transaction, nonce: nat, now: nat) returns (r: Option<M.AddError>, ghost victim: Hash)
      requires NoEmpty(pending)
      modifies this
      ensures old(pending) != map[] ==> M.Evictable(old(Value()), victim)
      ensures r == M.AddRefusal(config, hash, old(Value()), tx, nonce, victim)
      ensures Value() == M.Add(config, hash, old(Value()), tx, nonce, now, victim)
    {
      var candidate := LowestPriced();
      victim := candidate;
      if !ValidBasic(tx) {
        return Some(M.Invalid), victim;
      }
      if hash(tx) in byHash {
        return Some(M.Duplicate), victim;
      }
      if |byHash| >= config.maxSize {
        if pending == map[] {
          return Some(M.PoolFull), victim;
        }
        var _ := Remove(candidate);
      }
      r := Admit(tx, nonce, now);
    }

    /** The checks and the insertion that follow the size check. */
    method Admit(tx: Transaction, nonce: nat, now: nat) returns (r: Option<M.AddError>)
      requires hash(tx) !in byHash
      modifies this
      ensures r == if M.CountOf(old(bySender), tx.from) >= config.maxPerAccount then Some(M.TooManyFromSender)
                   else if tx.gasPrice < config.minGasPrice then Some(M.PriceTooLow)
                   else if tx.nonce < nonce then Some(M.NonceTooLow)
                   else None
      ensures Value() == if r.Some? then old(Value()) else M.Insert(hash, old(Value()), tx, nonce, now)
    {
      if M.CountOf(bySender, tx.from) >= config.maxPerAccount {
        return Some(M.TooManyFromSender);
      }
      if tx.gasPrice < config.minGasPrice {
        return Some(M.PriceTooLow);
      }
      if tx.nonce < nonce {
        return Some(M.NonceTooLow);
      }
      if tx.nonce == nonce {
        StorePending(hash(tx), M.Entry(tx, now));
      } else {
        StoreQueued(hash(tx), M.Entry(tx, now));
      }
      return None;
    }

    method StorePending(h: Hash, entry: M.Entry)
      requires h !in byHash
      modifies this
      ensures Value() == M.InsertPending(old(Value()), h, entry)
    {
      pending := Put(pending, entry.tx.gasPrice, h, entry);
      Track(h, entry.tx);
      metrics := metrics.(pendingCount := metrics.pendingCount + 1);
    }

    method StoreQueued(h: Hash, entry: M.Entry)
      requires h !in byHash
      modifies this
      ensures Value() == M.InsertQueued(old(Value()), h, entry)
    {
      queued := Put(queued, entry.tx.from, entry.tx.nonce, entry);
      Track(h, entry.tx);
      metrics := metrics.(queuedCount := metrics.queuedCount + 1);
    }

    method Track(h: Hash, tx: Transaction)
      requires h !in byHash
      modifies `byHash, `bySender, `metrics
      ensures Value() == M.Track(old(Value()), h, tx)
    {
      byHash := byHash[h := tx];
      bySender := bySender[tx.from := M.CountOf(bySender, tx.from) + 1];
      assert byHash.Keys == old(byHash).Keys + {h};
      metrics := metrics.(totalAdded := metrics.totalAdded + 1, total := |byHash|);
    }

    method RemoveIncluded(txs: seq<Transaction>) returns (ghost slots: seq<(Address, nat)>)
      modifies this
      ensures Value() == M.PromoteAll(hash, M.RemoveAll(old(Value()), HashesOf(hash, txs)), slots)
      ensures forall a: Address, n: nat ::
        (a, n) in slots <==> NextInQueue(M.RemoveAll(old(Value()), HashesOf(hash, txs)), a, n)
    {
      ghost var start := Value();
      for i := 0 to |txs|
        invariant Value() == M.RemoveAll(start, HashesOf(hash, txs[..i]))
      {
        var _ := Remove(hash(txs[i]));
        assert txs[..i + 1][..i] == txs[..i];
        ghost var hashes := HashesOf(hash, txs[..i + 1]);
        assert hashes[..|hashes| - 1] == HashesOf(hash, txs[..i]);
      }
      assert txs[..|txs|] == txs;
      slots := PromoteQueued();
    }

    /** Every sender's next queued entry moves to its price bucket. */
    method PromoteQueued() returns (ghost slots: seq<(Address, nat)>)
      modifies this
      ensures Value() == M.PromoteAll(hash, old(Value()), slots)
      ensures forall a: Address, n: nat :: (a, n) in slots <==> NextInQueue(old(Value()), a, n)
    {
      ghost var start := Value();
      var toPromote: seq<(Address, nat)> := [];
      var senders := queued.Keys;
      while senders != {}
        invariant senders <= queued.Keys
        invariant Value() == start
        invariant forall a: Address, n: nat :: (a, n) in toPromote <==> NextInQueue(start, a, n) && a !in senders
        decreases senders
      {
        var a :| a in senders;
        ghost var before := toPromote;
        if queued[a] != map[] {
          assert queued[a].Keys != {};
          ghost var least := LeastOf(queued[a].Keys);
          var n :| n in queued[a] && forall m :: m in queued[a] ==> n <= m;
          toPromote := toPromote + [(a, n)];
          assert forall b: Address, m: nat :: (b, m) in toPromote <==> (b, m) in before || (b, m) == (a, n);
        }
        senders := senders - {a};
      }
      for i := 0 to |toPromote|
        invariant Value() == M.PromoteAll(hash, start, toPromote[..i])
      {
        assert toPromote[..i + 1][..i] == toPromote[..i];
        var (a, n) := toPromote[i];
        PromoteOne(a, n);
      }
      assert toPromote[..|toPromote|] == toPromote;
      slots := toPromote;
    }

    method PromoteOne(a: Address, n: nat)
      modifies `pending, `queued, `metrics
      ensures Value() == M.Promote(hash, old(Value()), a, n)
    {
      var slot := At(queued, a, n);
      if slot.Some? {
        var entry := slot.value;
        queued := Pull(queued, a, n);
        pending := Put(pending, entry.tx.gasPrice, hash(entry.tx), entry);
        metrics := metrics.(pendingCount := metrics.pendingCount + 1, queuedCount := M.Decrement(metrics.queuedCount));
      }
    }

    /** Removes exactly the stale hashes, in some order. */
    method Prune(now: nat) returns (ghost removed: seq<Hash>)
      modifies this
      ensures Value() == M.RemoveAll(old(Value()), removed)
      ensures forall h :: h in removed <==> Stale(config, hash, old(Value()), h, now)
    {
      var old1 := set price, h | price in pending && h in pending[price] &&
                                 now - pending[price][h].addedAt > config.maxAge :: h;
      var old2 := set a, n | a in queued && n in queued[a] &&
                             now - queued[a][n].addedAt > config.maxAge :: hash(queued[a][n].tx);
      assert forall h :: h in old1 + old2 <==> Stale(config, hash, Value(), h, now);
      removed := RemoveEach(old1 + old2);
    }

    method RemoveEach(hashes: set<Hash>) returns (ghost removed: seq<Hash>)
      modifies this
      ensures Value() == M.RemoveAll(old(Value()), removed)
      ensures forall h :: h in removed <==> h in hashes
    {
      ghost var start := Value();
      var left := hashes;
      removed := [];
      while left != {}
        invariant Value() == M.RemoveAll(start, removed)
        invariant left <= hashes
        invariant forall h :: h in removed <==> h in hashes - left
        decreases left
      {
        var h :| h in left;
        var _ := Remove(h);
        ghost var before := removed;
        removed := removed + [h];
        assert removed[..|removed| - 1] == before;
        left := left - {h};
      }
    }

    method Clear()
      modifies this
      ensures Value() == M.EMPTY_POOL
    {
      pending, queued, byHash, bySender := map[], map[], map[], map[];
      metrics := M.Metrics(0, 0, 0, 0, 0);
    }

    /** Lists the pending transactions, dearest first, equally dear ones in any order. */
    method ListPending() returns (order: seq<Transaction>)
      requires M.HashesMatch(hash, Value()) && M.PendingIsLive(Value())
      ensures F.Listing(Value(), order)
    {
      order := [];
      var slots := set price, h | price in pending && h in pending[price] :: (price, h);
      ghost var all := slots;
      assert forall price: nat, h: Hash :: (price, h) in all <==> At(pending, price, h).Some?;
      while slots != {}
        invariant slots <= all && ListedSoFar(hash, Value(), all - slots, slots, order)
        decreases slots
      {
        var s := Dearest(slots);
        assert At(pending, s.0, s.1).Some?;
        var tx := pending[s.0][s.1].tx;
        assert (tx.gasPrice, hash(tx)) == s;
        ListOne(hash, Value(), all - slots, slots, order, tx);
        order := order + [tx];
        assert all - (slots - {s}) == all - slots + {s};
        slots := slots - {s};
      }
      forall tx ensures tx in order <==> F.IsPending(Value(), tx) {
        assert all - slots == all;
        ListedIsPending(hash, Value(), all, tx);
      }
    }

    static method Dearest(slots: set<(nat, Hash)>) returns (s: (nat, Hash))
      requires slots != {}
      ensures s in slots && forall t :: t in slots ==> t.0 <= s.0
    {
      var rest := slots;
      s :| s in rest;
      rest := rest - {s};
      while rest != {}
        invariant s in slots && rest <= slots
        invariant forall t :: t in slots - rest ==> t.0 <= s.0
        decreases rest
      {
        var t :| t in rest;
        if t.0 > s.0 {
          s := t;
        }
        rest := rest - {t};
      }
    }

    /** The greedy pass over some listing of the pending transactions. */
    method GetPending(maxGas: nat, maxCount: nat) returns (chosen: seq<Transaction>, ghost order: seq<Transaction>)
      requires M.HashesMatch(hash, Value()) && M.PendingIsLive(Value())
      ensures F.Listing(Value(), order) && chosen == F.Fill(order, 0, maxCount, maxGas)
      ensures |chosen| <= maxCount && F.PricesFall(chosen)
      ensures forall tx :: multiset(chosen)[tx] <= 1
      ensures forall tx :: tx in chosen ==> F.IsPending(Value(), tx)
    {
      var listed := ListPending();
      order := listed;
      chosen := FillBlock(listed, maxGas, maxCount);
      F.SelectionIsListed(Value(), listed, maxGas, maxCount);
    }

    static method FillBlock(listed: seq<Transaction>, maxGas: nat, maxCount: nat) returns (chosen: seq<Transaction>)
      ensures chosen == F.Fill(listed, 0, maxCount, maxGas)
    {
      chosen := [];
      var total: nat := 0;
      for i := 0 to |listed|
        invariant |chosen| <= maxCount
        invariant chosen + F.Fill(listed[i..], total, maxCount - |chosen|, maxGas) ==
                  F.Fill(listed, 0, maxCount, maxGas)
      {
        assert listed[i..][0] == listed[i] && listed[i..][1..] == listed[i + 1..];
        if (total + listed[i].gasLimit) % U64 > maxGas {
          continue;
        }
        if |chosen| >= maxCount {
          return;
        }
        total := (total + listed[i].gasLimit) % U64;
        chosen := chosen + [listed[i]];
      }
    }
  }
}
