/** Transaction execution over the journaled state (chain.rs). */
module Execution {
  import opened Types
  import opened Sums
  import opened Remainders
  import opened WorldStates

  const GAS_USED: nat := 21000

  datatype Receipt = Receipt(txHash: Hash, blockNumber: nat, from: Address, to: Option<Address>, gasUsed: nat)

  datatype TxError = InvalidTx | NonceMismatch | InsufficientBalance | StateError

  /** The u64 product that becomes the fee. */
  function Fee(tx: Transaction): nat {
    GAS_USED * tx.gasPrice % U64
  }

  function MaxGasCost(tx: Transaction): nat {
    tx.gasLimit * tx.gasPrice % U64
  }

  /** The u64 increment. */
  function NextNonce(n: uint64): uint64 {
    if n == U64 - 1 then 0 else n + 1
  }

  function Recipient(tx: Transaction): Option<Address> {
    match tx.txType
    case Transfer(to, _) => Some(to)
    case ContractCall(contract, _) => Some(contract)
    case _ => None
  }

  // ----- reference semantics: what a transaction does to the accounts, without any journal

  /** The type-specific effect on the sender's own account, for everything but a transfer. */
  function OwnEffect(account: Account, kind: TransactionType): Result<Account, TxError> {
    match kind
    case Stake(amount) =>
      if account.balance < amount then Failure(InsufficientBalance)
      else Success(account.(balance := account.balance - amount, staked := account.staked + amount))
    case Unstake(amount) =>
      if account.staked < amount then Failure(StateError)
      else Success(account.(staked := account.staked - amount, balance := account.balance + amount))
    case DeployLiquidity(_, amount) =>
      if account.staked < amount then Failure(StateError)
      else Success(account.(liquidityDeployed := account.liquidityDeployed + amount))
    case WithdrawLiquidity(_, amount) =>
      if account.liquidityDeployed < amount then Failure(StateError)
      else Success(account.(liquidityDeployed := account.liquidityDeployed - amount))
    case _ => Success(account)
  }

  function Debited(account: Account, amount: nat): Account
    requires amount <= account.balance
  {
    account.(balance := account.balance - amount)
  }

  function Credited(account: Account, amount: nat): Account {
    account.(balance := account.balance + amount)
  }

  /** Both new accounts are computed from the old map, so a self-transfer keeps only the credit. */
  function Moved(m: Accounts, from: Address, to: Address, amount: nat): Accounts
    requires amount <= GetAccount(m, from).balance
  {
    m[from := Debited(GetAccount(m, from), amount)][to := Credited(GetAccount(m, to), amount)]
  }

  function Effect(m: Accounts, tx: Transaction): Result<Accounts, TxError> {
    var sender := GetAccount(m, tx.from);
    match tx.txType
    case Transfer(to, amount) =>
      if sender.balance < amount then Failure(InsufficientBalance)
      else Success(Moved(m, tx.from, to, amount))
    case _ =>
      match OwnEffect(sender, tx.txType)
      case Success(account) => Success(m[tx.from := account])
      case Failure(e) => Failure(e)
  }

  function Charge(m: Accounts, tx: Transaction): Result<Accounts, TxError> {
    var sender := GetAccount(m, tx.from);
    if sender.balance < Fee(tx) then Failure(InsufficientBalance)
    else Success(m[tx.from := Debited(sender, Fee(tx))])
  }

  function Bumped(m: Accounts, a: Address): Accounts {
    var account := GetAccount(m, a);
    m[a := account.(nonce := NextNonce(account.nonce))]
  }

  /** The journaled part of a transaction: nonce, effect, fee. */
  function Body(m: Accounts, tx: Transaction): Result<Accounts, TxError> {
    match Effect(Bumped(m, tx.from), tx)
    case Failure(e) => Failure(e)
    case Success(m') => Charge(m', tx)
  }

  /** The accounts after a transaction that succeeds, or why it fails. */
  function Apply(m: Accounts, tx: Transaction): Result<Accounts, TxError> {
    var sender := GetAccount(m, tx.from);
    if !ValidBasic(tx) then Failure(InvalidTx)
    else if tx.nonce != sender.nonce then Failure(NonceMismatch)
    else if sender.balance < MaxGasCost(tx) then Failure(InsufficientBalance)
    else Body(m, tx)
  }

  // ----- what a transaction needs and does, account by account

  /** A transaction succeeds exactly under these conditions on itself and its sender's account. */
  lemma SuccessIff(m: Accounts, tx: Transaction)
    ensures var s, fee := GetAccount(m, tx.from), 21000 * tx.gasPrice % U64;
      Apply(m, tx).Success? <==>
        && tx.signature.Some? && tx.gasLimit > 0 && tx.gasPrice > 0
        && tx.nonce == s.nonce
        && s.balance >= tx.gasLimit * tx.gasPrice % U64
        && match tx.txType {
             case Transfer(to, amount) =>
               s.balance >= amount > 0 && (if to == tx.from then s.balance + amount else s.balance - amount) >= fee
             case Stake(amount) => amount > 0 && s.balance >= amount + fee
             case Unstake(amount) => s.staked >= amount > 0 && s.balance + amount >= fee
             case DeployLiquidity(_, amount) => s.staked >= amount > 0 && s.balance >= fee
             case WithdrawLiquidity(_, amount) => s.liquidityDeployed >= amount > 0 && s.balance >= fee
             case ContractDeployment(bytecode, _) => bytecode != [] && s.balance >= fee
             case ContractCall(_, data) => data != [] && s.balance >= fee
           }
  {
  }

  /** Why one fails; what is left after these is want of balance. */
  lemma FailureIff(m: Accounts, tx: Transaction)
    ensures var s := GetAccount(m, tx.from);
      && (Apply(m, tx) == Failure(InvalidTx) <==> !ValidBasic(tx))
      && (Apply(m, tx) == Failure(NonceMismatch) <==> ValidBasic(tx) && tx.nonce != s.nonce)
      && (Apply(m, tx) == Failure(StateError) <==>
            && ValidBasic(tx) && tx.nonce == s.nonce && s.balance >= tx.gasLimit * tx.gasPrice % U64
            && (|| (tx.txType.Unstake? && s.staked < tx.txType.amount)
                || (tx.txType.DeployLiquidity? && s.staked < tx.txType.amount)
                || (tx.txType.WithdrawLiquidity? && s.liquidityDeployed < tx.txType.amount)))
  {
  }

  /** What a success does to its sender, a transfer to itself apart. */
  lemma SenderAfter(m: Accounts, tx: Transaction)
    requires Apply(m, tx).Success? && !(tx.txType.Transfer? && tx.txType.to == tx.from)
    ensures var s, t, fee := GetAccount(m, tx.from), GetAccount(Apply(m, tx).value, tx.from), 21000 * tx.gasPrice % U64;
      && t.nonce == NextNonce(s.nonce)
      && (t.utilityScore, t.codeHash, t.storageRoot) == (s.utilityScore, s.codeHash, s.storageRoot)
      && match tx.txType {
           case Transfer(_, amount) =>
             && t.balance == s.balance - amount - fee
             && (t.staked, t.liquidityDeployed) == (s.staked, s.liquidityDeployed)
           case Stake(amount) =>
             && t.balance == s.balance - amount - fee
             && (t.staked, t.liquidityDeployed) == (s.staked + amount, s.liquidityDeployed)
           case Unstake(amount) =>
             && t.balance == s.balance + amount - fee
             && (t.staked, t.liquidityDeployed) == (s.staked - amount, s.liquidityDeployed)
           case DeployLiquidity(_, amount) =>
             && t.balance == s.balance - fee
             && (t.staked, t.liquidityDeployed) == (s.staked, s.liquidityDeployed + amount)
           case WithdrawLiquidity(_, amount) =>
             && t.balance == s.balance - fee
             && (t.staked, t.liquidityDeployed) == (s.staked, s.liquidityDeployed - amount)
           case _ =>
             && t.balance == s.balance - fee
             && (t.staked, t.liquidityDeployed) == (s.staked, s.liquidityDeployed)
         }
  {
  }

  /** What it does to anybody else: a receiver gains exactly the amount, and nobody else is touched. */
  lemma OthersAfter(m: Accounts, tx: Transaction, a: Address)
    requires Apply(m, tx).Success? && a != tx.from
    ensures var s, after := GetAccount(m, a), Apply(m, tx).value;
      if tx.txType.Transfer? && tx.txType.to == a
      then Lookup(after, a) == Some(s.(balance := s.balance + tx.txType.amount))
      else Lookup(after, a) == Lookup(m, a)
  {
  }

  /** A transfer to oneself leaves only its credit and the fee. */
  lemma SelfTransferAfter(m: Accounts, tx: Transaction)
    requires Apply(m, tx).Success? && tx.txType.Transfer? && tx.txType.to == tx.from
    ensures var s := GetAccount(m, tx.from);
      GetAccount(Apply(m, tx).value, tx.from) ==
      s.(nonce := NextNonce(s.nonce), balance := s.balance + tx.txType.amount - 21000 * tx.gasPrice % U64)
  {
  }

  /** The receipt names the receiver of a transfer or the contract called, and nobody for other types. */
  lemma RecipientIff(tx: Transaction, a: Address)
    ensures Recipient(tx) == Some(a) <==>
      || (tx.txType.Transfer? && tx.txType.to == a)
      || (tx.txType.ContractCall? && tx.txType.contract == a)
    ensures GAS_USED == 21000
  {
  }

  // ----- conservation

  function Holdings(account: Account): nat {
    account.balance + account.staked
  }

  /** All tokens: balances and stakes of every account. */
  ghost function Supply(m: Accounts): nat {
    Sum(m, Holdings)
  }

  lemma SupplyOfSet(m: Accounts, a: Address, account: Account)
    ensures Supply(m[a := account]) + Holdings(GetAccount(m, a)) == Supply(m) + Holdings(account)
  {
    SumSet(m, Holdings, a, account);
  }

  /** The amount a transaction sends to its own sender. */
  function SelfTransfer(tx: Transaction): nat {
    if tx.txType.Transfer? && tx.txType.to == tx.from then tx.txType.amount else 0
  }

  lemma MovedSupply(m: Accounts, from: Address, to: Address, amount: nat)
    requires GetAccount(m, from).balance >= amount
    ensures from != to ==> Supply(Moved(m, from, to, amount)) == Supply(m)
    ensures from == to ==> Supply(Moved(m, from, to, amount)) == Supply(m) + amount
  {
    var debited, credited := Debited(GetAccount(m, from), amount), Credited(GetAccount(m, to), amount);
    SupplyOfSet(m, from, debited);
    SupplyOfSet(m[from := debited], to, credited);
  }

  lemma OwnEffectHoldings(account: Account, kind: TransactionType)
    requires OwnEffect(account, kind).Success?
    ensures Holdings(OwnEffect(account, kind).value) == Holdings(account)
  {
  }

  lemma EffectSupply(m: Accounts, tx: Transaction)
    requires Effect(m, tx).Success?
    ensures Supply(Effect(m, tx).value) == Supply(m) + SelfTransfer(tx)
  {
    if tx.txType.Transfer? {
      MovedSupply(m, tx.from, tx.txType.to, tx.txType.amount);
    } else {
      var sender := GetAccount(m, tx.from);
      OwnEffectHoldings(sender, tx.txType);
      SupplyOfSet(m, tx.from, OwnEffect(sender, tx.txType).value);
    }
  }

  lemma ChargeSupply(m: Accounts, tx: Transaction)
    requires Charge(m, tx).Success?
    ensures Supply(Charge(m, tx).value) + Fee(tx) == Supply(m)
  {
    SupplyOfSet(m, tx.from, Charge(m, tx).value[tx.from]);
  }

  /** A success burns the fee, and creates what a self-transfer sends. */
  lemma ApplySupply(m: Accounts, tx: Transaction)
    requires Apply(m, tx).Success?
    ensures Supply(Apply(m, tx).value) + Fee(tx) == Supply(m) + SelfTransfer(tx)
  {
    var m1 := Bumped(m, tx.from);
    SupplyOfSet(m, tx.from, m1[tx.from]);
    EffectSupply(m1, tx);
    ChargeSupply(Effect(m1, tx).value, tx);
  }

  /** A success advances the sender's nonce from the transaction's and no other. */
  lemma ApplyNonces(m: Accounts, tx: Transaction, a: Address)
    requires Apply(m, tx).Success?
    ensures GetAccount(m, tx.from).nonce == tx.nonce
    ensures GetAccount(Apply(m, tx).value, a).nonce ==
            if a == tx.from then NextNonce(GetAccount(m, a).nonce) else GetAccount(m, a).nonce
  {
  }

  // ----- the fee as a 64-bit product

  /** The price of a transaction's gas, in full. */
  function FullPrice(tx: Transaction): nat {
    GAS_USED * tx.gasPrice
  }

  lemma FeeIsFullIff(tx: Transaction)
    ensures Fee(tx) <= FullPrice(tx)
    ensures Fee(tx) == FullPrice(tx) <==> FullPrice(tx) < U64
  {
  }

  /** At a gas price of 2^61, with a gas limit of 8, a contract call of an account that does not exist succeeds free of
      charge. */
  lemma WrappedFeeIsFree(a: Address, contract: Address)
    ensures var tx := Transaction(a, 0, ContractCall(contract, [0]), 0x2000_0000_0000_0000, 8, 0, Some(0));
      Apply(map[], tx).Success? && Fee(tx) == 0 && Supply(Apply(map[], tx).value) == 0
  {
    var tx := Transaction(a, 0, ContractCall(contract, [0]), 0x2000_0000_0000_0000, 8, 0, Some(0));
    assert Fee(tx) == 0 && MaxGasCost(tx) == 0;
    assert Apply(map[], tx).Success?;
    ApplySupply(map[], tx);
  }

  // ----- whole runs

  /** The accounts after attempting each transaction in turn. */
  function RunAll(m: Accounts, txs: seq<Transaction>): Accounts
    decreases |txs|
  {
    if txs == [] then m
    else
      var r := Apply(m, txs[0]);
      RunAll(if r.Success? then r.value else m, txs[1..])
  }

  /** The transactions of a run that succeed, in order. */
  function Executed(m: Accounts, txs: seq<Transaction>): seq<Transaction>
    decreases |txs|
  {
    if txs == [] then []
    else
      match Apply(m, txs[0])
      case Success(m') => [txs[0]] + Executed(m', txs[1..])
      case Failure(_) => Executed(m, txs[1..])
  }

  function Fees(txs: seq<Transaction>): nat {
    if txs == [] then 0 else Fee(txs[0]) + Fees(txs[1..])
  }

  function SelfTransfers(txs: seq<Transaction>): nat {
    if txs == [] then 0 else SelfTransfer(txs[0]) + SelfTransfers(txs[1..])
  }

  /** What one executed transaction adds to `a`'s balance, stake and deployed liquidity. */
  function BalanceChange(tx: Transaction, a: Address): int {
    (if tx.from == a then -(21000 * tx.gasPrice % U64) else 0) +
    match tx.txType
    case Transfer(to, amount) => if to == a then amount else if tx.from == a then -(amount as int) else 0
    case Stake(amount) => if tx.from == a then -(amount as int) else 0
    case Unstake(amount) => if tx.from == a then amount else 0
    case _ => 0
  }

  function StakeChange(tx: Transaction, a: Address): int {
    if tx.from != a then 0
    else
      match tx.txType
      case Stake(amount) => amount
      case Unstake(amount) => -(amount as int)
      case _ => 0
  }

  function LiquidityChange(tx: Transaction, a: Address): int {
    if tx.from != a then 0
    else
      match tx.txType
      case DeployLiquidity(_, amount) => amount
      case WithdrawLiquidity(_, amount) => -(amount as int)
      case _ => 0
  }

  function Changes(txs: seq<Transaction>, change: (Transaction, Address) -> int, a: Address): int {
    if txs == [] then 0 else change(txs[0], a) + Changes(txs[1..], change, a)
  }

  lemma ApplyLedger(m: Accounts, tx: Transaction, a: Address)
    requires Apply(m, tx).Success?
    ensures var s, t := GetAccount(m, a), GetAccount(Apply(m, tx).value, a);
      && t.balance == s.balance + BalanceChange(tx, a)
      && t.staked == s.staked + StakeChange(tx, a)
      && t.liquidityDeployed == s.liquidityDeployed + LiquidityChange(tx, a)
  {
    if a != tx.from {
      OthersAfter(m, tx, a);
    } else if tx.txType.Transfer? && tx.txType.to == a {
      SelfTransferAfter(m, tx);
    } else {
      SenderAfter(m, tx);
    }
  }

  /** Over every run each account ends with exactly what its executed transactions, and transfers to it, come to. */
  lemma {:induction false} RunLedger(m: Accounts, txs: seq<Transaction>, a: Address)
    ensures var s, t, done := GetAccount(m, a), GetAccount(RunAll(m, txs), a), Executed(m, txs);
      && t.balance == s.balance + Changes(done, BalanceChange, a)
      && t.staked == s.staked + Changes(done, StakeChange, a)
      && t.liquidityDeployed == s.liquidityDeployed + Changes(done, LiquidityChange, a)
    decreases |txs|
  {
    if txs != [] {
      match Apply(m, txs[0])
      case Success(m') =>
        ApplyLedger(m, txs[0], a);
        RunLedger(m', txs[1..], a);
        assert ([txs[0]] + Executed(m', txs[1..]))[1..] == Executed(m', txs[1..]);
      case Failure(_) =>
        RunLedger(m, txs[1..], a);
    }
  }

  lemma {:induction false} RunConserves(m: Accounts, txs: seq<Transaction>)
    ensures Supply(RunAll(m, txs)) + Fees(Executed(m, txs)) == Supply(m) + SelfTransfers(Executed(m, txs))
    decreases |txs|
  {
    if txs != [] {
      match Apply(m, txs[0])
      case Success(m') =>
        ApplySupply(m, txs[0]);
        RunConserves(m', txs[1..]);
        assert ([txs[0]] + Executed(m', txs[1..]))[1..] == Executed(m', txs[1..]);
      case Failure(_) =>
        RunConserves(m, txs[1..]);
    }
  }

  /** Tokens are conserved up to fees exactly when no executed transfer is to its own sender. */
  lemma RunConservesIff(m: Accounts, txs: seq<Transaction>)
    ensures Supply(RunAll(m, txs)) + Fees(Executed(m, txs)) == Supply(m) <==>
            forall i :: 0 <= i < |Executed(m, txs)| ==>
              !(Executed(m, txs)[i].txType.Transfer? && Executed(m, txs)[i].txType.to == Executed(m, txs)[i].from)
  {
    RunConserves(m, txs);
    ExecutedAreValid(m, txs);
    SelfTransfersZeroIff(Executed(m, txs));
  }

  function FullPrices(txs: seq<Transaction>): nat {
    if txs == [] then 0 else FullPrice(txs[0]) + FullPrices(txs[1..])
  }

  lemma {:induction false} FeesAreFullIff(txs: seq<Transaction>)
    ensures Fees(txs) <= FullPrices(txs)
    ensures Fees(txs) == FullPrices(txs) <==> forall i :: 0 <= i < |txs| ==> FullPrice(txs[i]) < U64
  {
    if txs != [] {
      FeeIsFullIff(txs[0]);
      FeesAreFullIff(txs[1..]);
      assert forall i :: 1 <= i < |txs| ==> txs[i] == txs[1..][i - 1];
      assert (forall i :: 0 <= i < |txs| ==> FullPrice(txs[i]) < U64) <==>
             FullPrice(txs[0]) < U64 && forall i :: 0 <= i < |txs[1..]| ==> FullPrice(txs[1..][i]) < U64;
    }
  }

  /** A run burns the full price of everything it executes exactly when none of these products wraps. */
  lemma RunBurnsFullPriceIff(m: Accounts, txs: seq<Transaction>)
    ensures var done := Executed(m, txs);
      Supply(RunAll(m, txs)) + FullPrices(done) == Supply(m) + SelfTransfers(done) <==>
      forall i :: 0 <= i < |done| ==> FullPrice(done[i]) < U64
  {
    RunConserves(m, txs);
    FeesAreFullIff(Executed(m, txs));
  }

  /** A sender with 100000 tokens sends itself 10 at price one: the transaction succeeds and creates them. */
  lemma SelfTransferCreates(a: Address)
    ensures exists m, tx ::
      && Apply(m, tx).Success? && tx.from == a
      && Supply(Apply(m, tx).value) + Fee(tx) == Supply(m) + 10
      && Supply(RunAll(m, [tx])) + Fees(Executed(m, [tx])) != Supply(m)
  {
    var m: Accounts := map[a := NEW_ACCOUNT.(balance := 100000)];
    var tx := Transaction(a, 0, Transfer(a, 10), 1, 21000, 0, Some(0));
    assert Fee(tx) == 21000 && MaxGasCost(tx) == 21000;
    assert Apply(m, tx).Success?;
    ApplySupply(m, tx);
    assert [tx][1..] == [];
    assert Executed(m, [tx]) == [tx] + Executed(Apply(m, tx).value, []) == [tx];
    RunConservesIff(m, [tx]);
  }

  lemma {:induction false} ExecutedAreValid(m: Accounts, txs: seq<Transaction>)
    ensures forall i :: 0 <= i < |Executed(m, txs)| ==> ValidBasic(Executed(m, txs)[i])
    decreases |txs|
  {
    if txs != [] {
      match Apply(m, txs[0])
      case Success(m') => ExecutedAreValid(m', txs[1..]);
      case Failure(_) => ExecutedAreValid(m, txs[1..]);
    }
  }

  lemma {:induction false} SelfTransfersZeroIff(txs: seq<Transaction>)
    requires forall i :: 0 <= i < |txs| ==> ValidBasic(txs[i])
    ensures SelfTransfers(txs) == 0 <==>
            forall i :: 0 <= i < |txs| ==> !(txs[i].txType.Transfer? && txs[i].txType.to == txs[i].from)
  {
    if txs != [] {
      SelfTransfersZeroIff(txs[1..]);
      assert forall i :: 1 <= i < |txs| ==> txs[i] == txs[1..][i - 1];
    }
  }

  /** The nonces of `a`'s transactions in a list, in order. */
  function NoncesOf(txs: seq<Transaction>, a: Address): seq<nat> {
    if txs == [] then []
    else (if txs[0].from == a then [txs[0].nonce] else []) + NoncesOf(txs[1..], a)
  }

  /** `n` after `k` increments. */
  function NonceAfter(n: uint64, k: nat): uint64
    decreases k
  {
    if k == 0 then n else NonceAfter(NextNonce(n), k - 1)
  }

  lemma {:induction false} NonceAfterIsSum(n: uint64, k: nat)
    ensures NonceAfter(n, k) == (n + k) % U64
    decreases k
  {
    if k > 0 {
      NonceAfterIsSum(NextNonce(n), k - 1);
      if n == U64 - 1 {
        ModTurn(k - 1, U64);
      }
    } else {
      ModUnique(n, U64, 0, n);
    }
  }

  /** Each sender's executed nonces are the successive increments of its account's nonce; it ends just past them. */
  lemma {:induction false} ConsecutiveNonces(m: Accounts, txs: seq<Transaction>, a: Address)
    ensures var ns, n := NoncesOf(Executed(m, txs), a), GetAccount(m, a).nonce;
      && (forall i {:trigger ns[i]} :: 0 <= i < |ns| ==> ns[i] == NonceAfter(n, i))
      && GetAccount(RunAll(m, txs), a).nonce == NonceAfter(n, |ns|)
    decreases |txs|
  {
    if txs != [] {
      match Apply(m, txs[0])
      case Success(m') =>
        ApplyNonces(m, txs[0], a);
        ConsecutiveNonces(m', txs[1..], a);
        assert ([txs[0]] + Executed(m', txs[1..]))[1..] == Executed(m', txs[1..]);
      case Failure(_) =>
        ConsecutiveNonces(m, txs[1..], a);
    }
  }

  /** Where the nonce of `txs[i]` stands among its sender's. */
  function NoncePosition(txs: seq<Transaction>, a: Address, i: nat): (p: nat)
    requires i < |txs| && txs[i].from == a
    ensures p < |NoncesOf(txs, a)| && NoncesOf(txs, a)[p] == txs[i].nonce
  {
    if i == 0 then 0
    else (if txs[0].from == a then 1 else 0) + NoncePosition(txs[1..], a, i - 1)
  }

  lemma {:induction false} NoncePositionsIncrease(txs: seq<Transaction>, a: Address, i: nat, j: nat)
    requires i < j < |txs| && txs[i].from == a && txs[j].from == a
    ensures 0 < NoncePosition(txs, a, j) - NoncePosition(txs, a, i) <= j - i
    decreases j
  {
    if i > 0 {
      NoncePositionsIncrease(txs[1..], a, i - 1, j - 1);
    } else if j > 1 {
      NoncePositionBound(txs[1..], a, j - 1);
    }
  }

  lemma {:induction false} NoncePositionBound(txs: seq<Transaction>, a: Address, i: nat)
    requires i < |txs| && txs[i].from == a
    ensures NoncePosition(txs, a, i) <= i
  {
    if i > 0 {
      NoncePositionBound(txs[1..], a, i - 1);
    }
  }

  lemma ExecutedNonce(m: Accounts, txs: seq<Transaction>, i: nat)
    requires i < |Executed(m, txs)|
    ensures var done := Executed(m, txs);
      done[i].nonce == NonceAfter(GetAccount(m, done[i].from).nonce, NoncePosition(done, done[i].from, i))
  {
    ConsecutiveNonces(m, txs, Executed(m, txs)[i].from);
  }

  lemma SameNonceIff(n: uint64, p: nat, q: nat)
    requires p <= q
    ensures NonceAfter(n, p) == NonceAfter(n, q) <==> (q - p) % U64 == 0
  {
    NonceAfterIsSum(n, p);
    NonceAfterIsSum(n, q);
    SameRemainder(n + p, q - p, U64);
  }

  /** Two executed transactions of one sender carry the same nonce exactly when a multiple of 2^64 of its
      transactions lies between them. */
  lemma ReplayIff(m: Accounts, txs: seq<Transaction>, i: nat, j: nat)
    requires i < j < |Executed(m, txs)| && Executed(m, txs)[i].from == Executed(m, txs)[j].from
    ensures var done := Executed(m, txs);
      done[i].nonce == done[j].nonce <==>
      (NoncePosition(done, done[i].from, j) - NoncePosition(done, done[i].from, i)) % U64 == 0
  {
    var done := Executed(m, txs);
    var a := done[i].from;
    NoncePositionsIncrease(done, a, i, j);
    ExecutedNonce(m, txs, i);
    ExecutedNonce(m, txs, j);
    SameNonceIff(GetAccount(m, a).nonce, NoncePosition(done, a, i), NoncePosition(done, a, j));
  }

  /** Within 2^64 executed transactions none repeats the sender and nonce of another. */
  lemma NoReplay(m: Accounts, txs: seq<Transaction>, i: nat, j: nat)
    requires i < j < |Executed(m, txs)| && j - i < U64
    ensures var done := Executed(m, txs);
      (done[i].from, done[i].nonce) != (done[j].from, done[j].nonce)
  {
    var done := Executed(m, txs);
    if done[j].from == done[i].from {
      ReplayIff(m, txs, i, j);
      NoncePositionsIncrease(done, done[i].from, i, j);
    }
  }

  /** `k` contract calls of `a`, with nonces counting up from `n`. */
  function Calls(a: Address, n: uint64, k: nat): seq<Transaction>
    decreases k
  {
    if k == 0 then []
    else [Transaction(a, n, ContractCall(a, [0]), 1, GAS_USED, 0, Some(0))] + Calls(a, NextNonce(n), k - 1)
  }

  lemma {:induction false} CallsExecute(m: Accounts, a: Address, k: nat)
    requires GetAccount(m, a).balance >= GAS_USED * k
    ensures Executed(m, Calls(a, GetAccount(m, a).nonce, k)) == Calls(a, GetAccount(m, a).nonce, k)
    decreases k
  {
    if k > 0 {
      var n := GetAccount(m, a).nonce;
      var tx := Calls(a, n, k)[0];
      assert GAS_USED * k == GAS_USED * (k - 1) + GAS_USED;
      assert Fee(tx) == MaxGasCost(tx) == GAS_USED && Apply(m, tx).Success?;
      assert Calls(a, n, k)[1..] == Calls(a, NextNonce(n), k - 1);
      CallsExecute(Apply(m, tx).value, a, k - 1);
    }
  }

  lemma {:induction false} CallAt(a: Address, n: uint64, k: nat, i: nat)
    requires i < k
    ensures |Calls(a, n, k)| == k
    ensures Calls(a, n, k)[i].from == a && Calls(a, n, k)[i].nonce == NonceAfter(n, i)
    decreases k
  {
    if k > 1 {
      CallAt(a, NextNonce(n), k - 1, if i > 0 then i - 1 else 0);
    }
  }

  /** A sender rich enough for 2^64 + 1 transactions executes one nonce twice. */
  lemma WrappedNonceReplays(a: Address)
    ensures exists m, txs :: var done := Executed(m, txs);
      && |done| == U64 + 1
      && (done[0].from, done[0].nonce) == (done[U64].from, done[U64].nonce)
  {
    var m: Accounts := map[a := NEW_ACCOUNT.(balance := GAS_USED * (U64 + 1))];
    var txs := Calls(a, 0, U64 + 1);
    CallsExecute(m, a, U64 + 1);
    CallAt(a, 0, U64 + 1, 0);
    CallAt(a, 0, U64 + 1, U64);
    SameNonceIff(0, 0, U64);
    assert |Executed(m, txs)| == U64 + 1;
  }
}
