/** Greedy block filling from the pool (mempool.rs). */
module BlockFilling {
  import opened Types
  import opened Blocks
  import opened Nested
  import opened Remainders
  import opened Mempool

  /** The greedy pass over `order` with `total` gas used and `slots` places left; sums wrap at 64 bits. */
  function Fill(order: seq<Transaction>, total: nat, slots: nat, maxGas: nat): seq<Transaction> {
    if order == [] then []
    else
      var tx, rest := order[0], order[1..];
      if (total + tx.gasLimit) % U64 > maxGas then Fill(rest, total, slots, maxGas)
      else if slots == 0 then []
      else [tx] + Fill(rest, (total + tx.gasLimit) % U64, slots - 1, maxGas)
  }

  predicate PricesFall(txs: seq<Transaction>) {
    forall i, j :: 0 <= i < j < |txs| ==> txs[i].gasPrice >= txs[j].gasPrice
  }

  // ----- what the pass selects

  lemma {:induction false} FillSelects(order: seq<Transaction>, total: nat, slots: nat, maxGas: nat)
    ensures |Fill(order, total, slots, maxGas)| <= slots
    ensures multiset(Fill(order, total, slots, maxGas)) <= multiset(order)
  {
    if order != [] {
      var tx, rest := order[0], order[1..];
      assert multiset(order) == multiset{tx} + multiset(rest) by { assert order == [tx] + rest; }
      if (total + tx.gasLimit) % U64 > maxGas {
        FillSelects(rest, total, slots, maxGas);
      } else if slots > 0 {
        FillSelects(rest, (total + tx.gasLimit) % U64, slots - 1, maxGas);
        var more := Fill(rest, (total + tx.gasLimit) % U64, slots - 1, maxGas);
        assert multiset([tx] + more) == multiset{tx} + multiset(more);
      }
    }
  }

  lemma DearerInFront(tx: Transaction, rest: seq<Transaction>, txs: seq<Transaction>)
    requires PricesFall([tx] + rest) && PricesFall(txs) && multiset(txs) <= multiset(rest)
    ensures PricesFall([tx] + txs)
  {
    forall i | 0 <= i < |txs| ensures tx.gasPrice >= txs[i].gasPrice {
      assert txs[i] in multiset(rest);
      var k :| 0 <= k < |rest| && rest[k] == txs[i];
      assert ([tx] + rest)[0] == tx && ([tx] + rest)[k + 1] == txs[i];
    }
  }

  lemma TailFalls(order: seq<Transaction>)
    requires order != [] && PricesFall(order)
    ensures PricesFall(order[1..]) && PricesFall([order[0]] + order[1..])
  {
    assert order == [order[0]] + order[1..];
  }

  lemma {:induction false} FillPricesFall(order: seq<Transaction>, total: nat, slots: nat, maxGas: nat)
    requires PricesFall(order)
    ensures PricesFall(Fill(order, total, slots, maxGas))
  {
    if order != [] {
      var tx, rest, next := order[0], order[1..], (total + order[0].gasLimit) % U64;
      TailFalls(order);
      if next > maxGas {
        FillPricesFall(rest, total, slots, maxGas);
      } else if slots > 0 {
        FillPricesFall(rest, next, slots - 1, maxGas);
        FillSelects(rest, next, slots - 1, maxGas);
        DearerInFront(tx, rest, Fill(rest, next, slots - 1, maxGas));
      }
    }
  }

  /** Wrapping or not, the 64-bit gas sum of the selection stays within the limit. */
  lemma {:induction false} FillGasWraps(order: seq<Transaction>, total: nat, slots: nat, maxGas: nat)
    requires total <= maxGas && total < U64
    ensures (total + TotalGas(Fill(order, total, slots, maxGas))) % U64 <= maxGas
  {
    if order != [] {
      FillStep(order, total, slots, maxGas);
      var sum := total + order[0].gasLimit;
      if sum % U64 > maxGas {
        FillGasWraps(order[1..], total, slots, maxGas);
      } else if slots > 0 {
        FillGasWraps(order[1..], sum % U64, slots - 1, maxGas);
        ModAdd(sum, TotalGas(Fill(order[1..], sum % U64, slots - 1, maxGas)), U64);
      } else {
        ModUnique(total, U64, 0, total);
      }
    } else {
      ModUnique(total, U64, 0, total);
    }
  }

  /** Nothing of `order` left out of `chosen` still fits within the limit. */
  ghost predicate NothingFits(order: seq<Transaction>, chosen: seq<Transaction>, total: nat, maxGas: nat) {
    forall tx :: tx in order && tx !in chosen ==> total + tx.gasLimit > maxGas
  }

  /** With every gas limit at most `limit`, no taken transaction can carry the sum past 64 bits. */
  predicate CannotWrap(limit: nat, total: nat, slots: nat, maxGas: nat) {
    limit + maxGas < U64 || total + slots * limit < U64
  }

  predicate LimitedBy(order: seq<Transaction>, limit: nat) {
    forall i :: 0 <= i < |order| ==> order[i].gasLimit <= limit
  }

  lemma StillCannotWrap(limit: nat, total: nat, gas: nat, slots: nat, maxGas: nat)
    requires gas <= limit && total <= maxGas && slots > 0 && CannotWrap(limit, total, slots, maxGas)
    ensures total + gas < U64 && CannotWrap(limit, total + gas, slots - 1, maxGas)
  {
    assert slots * limit == (slots - 1) * limit + limit;
  }

  /** Then the sum itself stays within the limit. */
  lemma {:induction false} FillFits(order: seq<Transaction>, total: nat, slots: nat, maxGas: nat, limit: nat)
    requires total <= maxGas < U64 && LimitedBy(order, limit) && CannotWrap(limit, total, slots, maxGas)
    ensures total + TotalGas(Fill(order, total, slots, maxGas)) <= maxGas
  {
    if order != [] {
      FillStep(order, total, slots, maxGas);
      var sum := total + order[0].gasLimit;
      if sum % U64 > maxGas {
        FillFits(order[1..], total, slots, maxGas, limit);
      } else if slots > 0 {
        StillCannotWrap(limit, total, order[0].gasLimit, slots, maxGas);
        FillFits(order[1..], sum, slots - 1, maxGas, limit);
      }
    }
  }

  /** A selection within the limit, with places left, leaves out nothing that still fits. */
  lemma {:induction false} FillIsMaximal(order: seq<Transaction>, total: nat, slots: nat, maxGas: nat)
    requires total <= maxGas < U64 && total + TotalGas(Fill(order, total, slots, maxGas)) <= maxGas
    requires |Fill(order, total, slots, maxGas)| < slots
    ensures var chosen := Fill(order, total, slots, maxGas);
      NothingFits(order, chosen, total + TotalGas(chosen), maxGas)
  {
    if order != [] {
      var tx, rest := order[0], order[1..];
      var sum := total + tx.gasLimit;
      FillStep(order, total, slots, maxGas);
      if sum % U64 > maxGas {
        FillIsMaximal(rest, total, slots, maxGas);
        NothingMoreFits(tx, rest, Fill(rest, total, slots, maxGas), total, maxGas);
      } else {
        FillIsMaximal(rest, sum, slots - 1, maxGas);
        var more := Fill(rest, sum, slots - 1, maxGas);
        ChosenNeedNotFit(tx, rest, more, sum + TotalGas(more), maxGas);
      }
    }
  }

  /** One step of the pass; a sum below 64 bits is its own remainder. */
  lemma FillStep(order: seq<Transaction>, total: nat, slots: nat, maxGas: nat)
    requires order != []
    ensures order == [order[0]] + order[1..]
    ensures var sum := total + order[0].gasLimit;
      && (sum < U64 ==> sum % U64 == sum)
      && sum % U64 <= sum
      && Fill(order, total, slots, maxGas) ==
           if sum % U64 > maxGas then Fill(order[1..], total, slots, maxGas)
           else if slots == 0 then []
           else [order[0]] + Fill(order[1..], sum % U64, slots - 1, maxGas)
    ensures forall more :: TotalGas([order[0]] + more) == order[0].gasLimit + TotalGas(more)
  {
    var sum := total + order[0].gasLimit;
    assert sum == U64 * (sum / U64) + sum % U64;
    forall more: seq<Transaction> ensures TotalGas([order[0]] + more) == order[0].gasLimit + TotalGas(more) {
      assert ([order[0]] + more)[1..] == more;
    }
  }

  lemma NothingMoreFits(tx: Transaction, rest: seq<Transaction>, chosen: seq<Transaction>, total: nat, maxGas: nat)
    requires total + tx.gasLimit > maxGas
    ensures NothingFits(rest, chosen, total + TotalGas(chosen), maxGas) ==>
            NothingFits([tx] + rest, chosen, total + TotalGas(chosen), maxGas)
  {
  }

  lemma ChosenNeedNotFit(tx: Transaction, rest: seq<Transaction>, more: seq<Transaction>, total: nat, maxGas: nat)
    ensures NothingFits(rest, more, total, maxGas) ==> NothingFits([tx] + rest, [tx] + more, total, maxGas)
  {
  }

  // ----- over the pool

  predicate IsPending(p: Pool, tx: Transaction) {
    exists price, h :: price in p.pending && h in p.pending[price] && p.pending[price][h].tx == tx
  }

  /** An order in which the price buckets, highest first, can list the pending transactions. */
  ghost predicate Listing(p: Pool, order: seq<Transaction>) {
    && PricesFall(order)
    && (forall tx :: tx in order <==> IsPending(p, tx))
    && (forall tx :: multiset(order)[tx] <= 1)
  }

  /** The selection: pending, unrepeated, by falling price, within the count. */
  lemma SelectionIsListed(p: Pool, order: seq<Transaction>, maxGas: nat, maxCount: nat)
    requires Listing(p, order)
    ensures var chosen := Fill(order, 0, maxCount, maxGas);
      && (forall tx :: multiset(chosen)[tx] <= 1)
      && (forall tx :: tx in chosen ==> IsPending(p, tx))
      && PricesFall(chosen)
      && |chosen| <= maxCount
  {
    var chosen := Fill(order, 0, maxCount, maxGas);
    FillSelects(order, 0, maxCount, maxGas);
    FillPricesFall(order, 0, maxCount, maxGas);
    assert forall tx :: tx in chosen ==> tx in multiset(chosen);
    assert forall tx :: tx in multiset(order) ==> tx in order;
  }

  /** A selection within the gas limit, with places left, leaves out no pending transaction that still fits. */
  lemma SelectionIsMaximal(p: Pool, order: seq<Transaction>, maxGas: nat, maxCount: nat)
    requires Listing(p, order) && maxGas < U64
    ensures var chosen := Fill(order, 0, maxCount, maxGas);
      TotalGas(chosen) <= maxGas && |chosen| < maxCount ==>
        forall tx :: IsPending(p, tx) && tx !in chosen ==> TotalGas(chosen) + tx.gasLimit > maxGas
  {
    var chosen := Fill(order, 0, maxCount, maxGas);
    if TotalGas(chosen) <= maxGas && |chosen| < maxCount {
      FillIsMaximal(order, 0, maxCount, maxGas);
    }
  }

  /** Every pending transaction has a gas limit of at most `limit`. */
  ghost predicate PendingLimitedBy(p: Pool, limit: nat) {
    forall tx :: IsPending(p, tx) ==> tx.gasLimit <= limit
  }

  /** A bound on the pending gas limits, known before the call, that keeps the selection within the gas limit. */
  lemma SelectionFits(p: Pool, order: seq<Transaction>, maxGas: nat, maxCount: nat, limit: nat)
    requires Listing(p, order) && maxGas < U64
    requires PendingLimitedBy(p, limit) && CannotWrap(limit, 0, maxCount, maxGas)
    ensures TotalGas(Fill(order, 0, maxCount, maxGas)) <= maxGas
  {
    forall i | 0 <= i < |order| ensures order[i].gasLimit <= limit {
      assert order[i] in order;
    }
    FillFits(order, 0, maxCount, maxGas, limit);
  }

  // ----- the bound is exact

  /** Whatever valid pool has its gas limits within the bound, and however it is listed, the selection fits. */
  ghost predicate AlwaysFits(txHash: Hashing, limit: nat, maxGas: nat, maxCount: nat) {
    forall c, p, order :: Valid(c, txHash, p) && Listing(p, order) && PendingLimitedBy(p, limit) ==>
      TotalGas(Fill(order, 0, maxCount, maxGas)) <= maxGas
  }

  ghost predicate Collisionless(txHash: Hashing) {
    forall x, y {:trigger txHash(x), txHash(y)} :: txHash(x) == txHash(y) ==> x == y
  }

  lemma PendingAfterInsert(txHash: Hashing, p: Pool, entry: Entry, tx: Transaction)
    requires IndexesLive(txHash, p) && IsNew(txHash, p, txHash(entry.tx), entry)
    ensures IsPending(InsertPending(p, txHash(entry.tx), entry), tx) <==> IsPending(p, tx) || tx == entry.tx
  {
    var h, p' := txHash(entry.tx), InsertPending(p, txHash(entry.tx), entry);
    if IsPending(p', tx) {
      var price, k :| price in p'.pending && k in p'.pending[price] && p'.pending[price][k].tx == tx;
      assert At(p'.pending, price, k).Some?;
      assert (price, k) != (entry.tx.gasPrice, h) ==> At(p.pending, price, k) == At(p'.pending, price, k);
    }
    if IsPending(p, tx) {
      var price, k :| price in p.pending && k in p.pending[price] && p.pending[price][k].tx == tx;
      assert At(p.pending, price, k).Some?;
      assert At(p'.pending, price, k) == At(p.pending, price, k);
    }
    assert At(p'.pending, entry.tx.gasPrice, h) == Some(entry);
  }

  /** The pool after adding each of `txs` as pending. */
  ghost function PoolOf(txHash: Hashing, txs: seq<Transaction>): Pool {
    if txs == [] then EMPTY_POOL
    else
      var last := txs[|txs| - 1];
      InsertPending(PoolOf(txHash, txs[..|txs| - 1]), txHash(last), Entry(last, 0))
  }

  /** Transaction `i` comes from sender `i`. */
  ghost predicate Numbered(txs: seq<Transaction>) {
    forall i :: 0 <= i < |txs| ==> txs[i].from == i && txs[i].gasPrice == 1 && ValidBasic(txs[i])
  }

  /** The pool holds exactly `txs`, all pending. */
  ghost predicate HoldsPending(c: Config, txHash: Hashing, p: Pool, txs: seq<Transaction>) {
    && Valid(c, txHash, p)
    && |p.byHash| == |txs|
    && (forall h :: h in p.byHash ==> p.byHash[h] in txs)
    && (forall tx :: IsPending(p, tx) <==> tx in txs)
  }

  lemma RoomForNext(c: Config, txHash: Hashing, p: Pool, txs: seq<Transaction>, tx: Transaction)
    requires HoldsPending(c, txHash, p, txs) && |txs| < c.maxSize && |txs| < c.maxPerAccount
    requires tx !in txs && ValidBasic(tx)
    ensures HasRoom(c, p, tx)
  {
    SmallerSet(FromSender(p.byHash, tx.from), p.byHash.Keys);
  }

  lemma PendNext(c: Config, txHash: Hashing, p: Pool, txs: seq<Transaction>, tx: Transaction)
    requires HoldsPending(c, txHash, p, txs) && ValidBasic(tx) && txHash(tx) !in p.byHash
    ensures forall x :: IsPending(InsertPending(p, txHash(tx), Entry(tx, 0)), x) <==> x in txs + [tx]
  {
    forall x ensures IsPending(InsertPending(p, txHash(tx), Entry(tx, 0)), x) <==> x in txs + [tx] {
      PendingAfterInsert(txHash, p, Entry(tx, 0), x);
    }
  }

  lemma HoldNext(c: Config, txHash: Hashing, p: Pool, txs: seq<Transaction>, tx: Transaction)
    requires HoldsPending(c, txHash, p, txs) && |txs| < c.maxSize && |txs| < c.maxPerAccount
    requires tx !in txs && ValidBasic(tx) && txHash(tx) !in p.byHash
    ensures HoldsPending(c, txHash, InsertPending(p, txHash(tx), Entry(tx, 0)), txs + [tx])
  {
    RoomForNext(c, txHash, p, txs, tx);
    InsertPendingKeepsValid(c, txHash, p, txHash(tx), Entry(tx, 0));
    TrackSize(p, txHash(tx), tx);
    PendNext(c, txHash, p, txs, tx);
  }

  lemma HoldNone(c: Config, txHash: Hashing)
    ensures HoldsPending(c, txHash, EMPTY_POOL, [])
  {
    EmptyIsValid(c, txHash);
  }

  lemma {:induction false} PoolOfHolds(c: Config, txHash: Hashing, txs: seq<Transaction>)
    requires Collisionless(txHash) && Numbered(txs) && |txs| <= c.maxSize && |txs| <= c.maxPerAccount
    ensures HoldsPending(c, txHash, PoolOf(txHash, txs), txs)
  {
    if txs == [] {
      HoldNone(c, txHash);
    } else {
      var before, last := txs[..|txs| - 1], txs[|txs| - 1];
      assert txs == before + [last] && last !in before;
      PoolOfHolds(c, txHash, before);
      var p := PoolOf(txHash, before);
      assert txHash(last) !in p.byHash;
      HoldNext(c, txHash, p, before, last);
    }
  }

  lemma {:induction false} NumberedOnce(txs: seq<Transaction>, tx: Transaction)
    requires Numbered(txs)
    ensures multiset(txs)[tx] <= 1
  {
    if txs != [] {
      var before, last := txs[..|txs| - 1], txs[|txs| - 1];
      NumberedOnce(before, tx);
      assert txs == before + [last];
      assert last !in before;
    }
  }

  lemma PoolOfListing(c: Config, txHash: Hashing, txs: seq<Transaction>)
    requires Collisionless(txHash) && Numbered(txs) && |txs| <= c.maxSize && |txs| <= c.maxPerAccount
    ensures Valid(c, txHash, PoolOf(txHash, txs)) && Listing(PoolOf(txHash, txs), txs)
  {
    PoolOfHolds(c, txHash, txs);
    forall tx ensures multiset(txs)[tx] <= 1 {
      NumberedOnce(txs, tx);
    }
  }

  function Load(i: nat, gas: nat): Transaction {
    Transaction(i, 0, Stake(1), 1, gas, 0, Some(0))
  }

  /** Transactions that use up exactly `gas`, each but the first at the bound. */
  ghost function Loads(gas: nat, limit: nat): (txs: seq<Transaction>)
    requires limit > 0
    ensures gas > 0 ==> txs != []
    decreases gas
  {
    if gas <= limit then [Load(0, gas)]
    else
      var before := Loads(gas - limit, limit);
      before + [Load(|before|, limit)]
  }

  lemma {:induction false} TotalGasSnoc(txs: seq<Transaction>, tx: Transaction)
    ensures TotalGas(txs + [tx]) == TotalGas(txs) + tx.gasLimit
  {
    if txs != [] {
      TotalGasSnoc(txs[1..], tx);
      assert (txs + [tx])[1..] == txs[1..] + [tx];
    }
  }

  lemma {:induction false} LoadsUseUp(gas: nat, limit: nat)
    requires limit > 0 && gas > 0
    ensures var txs := Loads(gas, limit);
      && Numbered(txs) && LimitedBy(txs, limit)
      && TotalGas(txs) == gas
      && (|txs| - 1) * limit < gas
      && (gas > limit ==> txs[|txs| - 1].gasLimit == limit)
    decreases gas
  {
    if gas > limit {
      LoadsUseUp(gas - limit, limit);
      var before := Loads(gas - limit, limit);
      TotalGasSnoc(before, Load(|before|, limit));
      OneMore(|before| - 1, limit);
    }
  }

  lemma OneMore(n: nat, limit: nat)
    ensures (n + 1) * limit == n * limit + limit
  {
  }

  lemma {:induction false} LastIsPart(txs: seq<Transaction>)
    requires txs != []
    ensures TotalGas(txs) >= txs[|txs| - 1].gasLimit
  {
    if |txs| > 1 {
      LastIsPart(txs[1..]);
    }
  }

  /** Transactions that add up to exactly 2^64 are all taken when the last one alone carries the sum over. */
  lemma {:induction false} WrapTakesAll(order: seq<Transaction>, total: nat, slots: nat, maxGas: nat)
    requires order != [] && |order| <= slots && total <= maxGas < U64
    requires total + TotalGas(order) == U64 && order[|order| - 1].gasLimit + maxGas >= U64
    ensures Fill(order, total, slots, maxGas) == order
  {
    FillStep(order, total, slots, maxGas);
    if |order| == 1 {
      assert order[1..] == [];
    } else {
      LastIsPart(order[1..]);
      WrapTakesAll(order[1..], total + order[0].gasLimit, slots - 1, maxGas);
    }
  }

  lemma ScaleUp(n: nat, k: nat, limit: nat)
    ensures n <= k ==> n * limit <= k * limit
  {
    if n <= k {
      assert k * limit == n * limit + (k - n) * limit;
    }
  }

  /** The selection from every pool within the bound fits exactly when the bound rules the wrap out. */
  lemma AlwaysFitsIff(txHash: Hashing, limit: nat, maxGas: nat, maxCount: nat)
    requires Collisionless(txHash) && limit < U64 && maxGas < U64
    ensures AlwaysFits(txHash, limit, maxGas, maxCount) <==> CannotWrap(limit, 0, maxCount, maxGas)
  {
    if CannotWrap(limit, 0, maxCount, maxGas) {
      forall c, p, order | Valid(c, txHash, p) && Listing(p, order) && PendingLimitedBy(p, limit)
        ensures TotalGas(Fill(order, 0, maxCount, maxGas)) <= maxGas
      {
        SelectionFits(p, order, maxGas, maxCount, limit);
      }
    } else {
      var txs := Loads(U64, limit);
      LoadsUseUp(U64, limit);
      ScaleUp(maxCount, |txs| - 1, limit);
      WrapTakesAll(txs, 0, maxCount, maxGas);
      var c, p := Config(|txs|, |txs|, 0, 0), PoolOf(txHash, txs);
      PoolOfListing(c, txHash, txs);
      assert Valid(c, txHash, p) && Listing(p, txs) && PendingLimitedBy(p, limit);
    }
  }

  // ----- an overflow from two additions

  /** The additions of `x` and `y`, both carrying their account's nonce. */
  function TwoAdditions(txHash: Hashing, x: Transaction, y: Transaction): seq<Event> {
    [AddTx(x, x.nonce, 0, 0), AddTx(y, y.nonce, 0, txHash(x))]
  }

  lemma RunOfTwo(c: Config, txHash: Hashing, p: Pool, e: Event, f: Event)
    ensures Run(c, txHash, p, [e, f]) == Step(c, txHash, Step(c, txHash, p, e), f)
    ensures PossibleRun(c, txHash, p, [e, f]) <==> Possible(p, e) && Possible(Step(c, txHash, p, e), f)
  {
    var p' := Step(c, txHash, p, e);
    assert [e, f][1..] == [f] && [f][1..] == [];
    assert Run(c, txHash, p', [f]) == Step(c, txHash, p', f);
    assert PossibleRun(c, txHash, p', [f]) <==> Possible(p', f);
  }

  lemma AddIsInsert(c: Config, txHash: Hashing, p: Pool, tx: Transaction, victim: Hash)
    requires HasRoom(c, p, tx) && ValidBasic(tx) && txHash(tx) !in p.byHash && tx.gasPrice >= c.minGasPrice
    ensures Step(c, txHash, p, AddTx(tx, tx.nonce, 0, victim)) == InsertPending(p, txHash(tx), Entry(tx, 0))
  {
  }

  /** After one addition its transaction is the one to evict, and nothing else is live. */
  lemma OnlyOne(txHash: Hashing, x: Transaction)
    ensures var p := InsertPending(EMPTY_POOL, txHash(x), Entry(x, 0));
      Evictable(p, txHash(x)) && p.byHash == map[txHash(x) := x]
  {
    var p := InsertPending(EMPTY_POOL, txHash(x), Entry(x, 0));
    assert p.pending == map[x.gasPrice := map[txHash(x) := Entry(x, 0)]];
  }

  lemma TwoAreHeld(c: Config, txHash: Hashing, x: Transaction, y: Transaction)
    requires c.maxSize >= 2 && c.maxPerAccount >= 2 && ValidBasic(x) && ValidBasic(y) && txHash(x) != txHash(y)
    requires x.gasPrice >= c.minGasPrice && y.gasPrice >= c.minGasPrice
    ensures PossibleRun(c, txHash, EMPTY_POOL, TwoAdditions(txHash, x, y))
    ensures HoldsPending(c, txHash, Run(c, txHash, EMPTY_POOL, TwoAdditions(txHash, x, y)), [x, y])
  {
    var run, p := TwoAdditions(txHash, x, y), InsertPending(EMPTY_POOL, txHash(x), Entry(x, 0));
    HoldNone(c, txHash);
    HoldNext(c, txHash, EMPTY_POOL, [], x);
    AddIsInsert(c, txHash, EMPTY_POOL, x, 0);
    OnlyOne(txHash, x);
    assert [] + [x] == [x] && [x] + [y] == [x, y];
    RoomForNext(c, txHash, p, [x], y);
    HoldNext(c, txHash, p, [x], y);
    AddIsInsert(c, txHash, p, y, txHash(x));
    RunOfTwo(c, txHash, EMPTY_POOL, run[0], run[1]);
  }

  lemma ListsTwo(p: Pool, x: Transaction, y: Transaction)
    requires forall tx :: IsPending(p, tx) <==> tx in [x, y]
    requires x != y && x.gasPrice >= y.gasPrice
    ensures Listing(p, [x, y])
  {
  }

  lemma BothAreTaken(x: Transaction, y: Transaction, maxGas: nat, maxCount: nat)
    requires x.gasLimit <= maxGas < U64 && y.gasLimit < U64 <= x.gasLimit + y.gasLimit && maxCount >= 2
    ensures TotalGas(Fill([x, y], 0, maxCount, maxGas)) == x.gasLimit + y.gasLimit
  {
    var sum := x.gasLimit + y.gasLimit;
    assert [x, y][1..] == [y] && [y][1..] == [];
    ModUnique(x.gasLimit, U64, 0, x.gasLimit);
    ModUnique(sum, U64, 1, sum - U64);
    assert Fill([y], x.gasLimit, maxCount - 1, maxGas) == [y] + [];
    assert Fill([x, y], 0, maxCount, maxGas) == [x] + [y] == [x, y];
    assert TotalGas([y]) == y.gasLimit;
  }

  /** Two pending transactions whose gas limits add up to 2^64 or more, the dearer within the block's limit, are both
      taken; under the genesis limit of 10000000, limits 10000000 and 2^64 - 1 do. */
  lemma WrappedFillOverflows(c: Config, txHash: Hashing, x: Transaction, y: Transaction, maxGas: nat, maxCount: nat)
    requires c.maxSize >= 2 && c.maxPerAccount >= 2 && ValidBasic(x) && ValidBasic(y) && txHash(x) != txHash(y)
    requires x.gasPrice >= y.gasPrice >= c.minGasPrice && maxCount >= 2
    requires x.gasLimit <= maxGas < U64 && y.gasLimit < U64 <= x.gasLimit + y.gasLimit
    ensures PossibleRun(c, txHash, EMPTY_POOL, TwoAdditions(txHash, x, y))
    ensures Listing(Run(c, txHash, EMPTY_POOL, TwoAdditions(txHash, x, y)), [x, y])
    ensures TotalGas(Fill([x, y], 0, maxCount, maxGas)) > maxGas
  {
    var p := Run(c, txHash, EMPTY_POOL, TwoAdditions(txHash, x, y));
    TwoAreHeld(c, txHash, x, y);
    ListsTwo(p, x, y);
    BothAreTaken(x, y, maxGas, maxCount);
  }
}
