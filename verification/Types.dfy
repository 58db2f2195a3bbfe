/** Values shared by every component: identifiers, transactions, accounts and outcomes. */
module Types {

  // Hashes and addresses are compared and used as keys, never computed with.
  type Hash = nat
  type Address = nat

  const ZERO_HASH: Hash := 0

  // Width of the source's u64 quantities; its release profile wraps on overflow.
  const U64: nat := 0x1_0000_0000_0000_0000

  type uint64 = n: nat | n < U64

  datatype Option<+T> = None | Some(value: T)

  datatype Result<+T, +E> = Success(value: T) | Failure(error: E)

  datatype TransactionType =
    | Transfer(to: Address, amount: nat)
    | Stake(amount: nat)
    | Unstake(amount: nat)
    | DeployLiquidity(poolId: nat, amount: nat)
    | WithdrawLiquidity(poolId: nat, amount: nat)
    | ContractDeployment(bytecode: seq<nat>, constructorArgs: seq<nat>)
    | ContractCall(contract: Address, data: seq<nat>)

  datatype Transaction = Transaction(
    from: Address,
    nonce: nat,
    txType: TransactionType,
    gasPrice: nat,
    gasLimit: nat,
    timestamp: nat,
    signature: Option<nat>)

  /** The checks of `validate_basic`. */
  predicate ValidBasic(tx: Transaction) {
    && tx.signature.Some?
    && tx.gasLimit != 0
    && tx.gasPrice != 0
    && match tx.txType {
         case Transfer(_, amount) => amount != 0
         case Stake(amount) => amount != 0
         case Unstake(amount) => amount != 0
         case DeployLiquidity(_, amount) => amount != 0
         case WithdrawLiquidity(_, amount) => amount != 0
         case ContractDeployment(bytecode, _) => bytecode != []
         case ContractCall(_, data) => data != []
       }
  }

  /** A map lookup in the source's style. */
  function Lookup<K, V>(m: map<K, V>, k: K): Option<V> {
    if k in m then Some(m[k]) else None
  }

  function Min(a: int, b: int): int { if a <= b then a else b }

  function Max(a: int, b: int): int { if a <= b then b else a }

  function Reverse<T>(s: seq<T>): (r: seq<T>)
    ensures |r| == |s|
    ensures forall i :: 0 <= i < |s| ==> r[i] == s[|s| - 1 - i]
  {
    if s == [] then [] else Reverse(s[1..]) + [s[0]]
  }

  lemma ReverseAt<T>(s: seq<T>, i: nat)
    requires i < |s|
    ensures Reverse(s)[|s| - 1 - i] == s[i]
  {
  }
}
