/** The slashing ledger (slashing.rs). */
module Slashing {
  import opened Types
  import opened Sums

  datatype Condition = DoubleSigning | ExtendedDowntime(days: nat) | LiquidityMismanagement | GovernanceAttack

  datatype Penalty = Penalty(validator: Address, condition: Condition, amount: nat, previousOffenses: nat,
                             evidence: Option<Hash>)

  /** The part of a validator that slashing and block production touch. */
  datatype Validator = Validator(address: Address, stake: nat, slashed: bool, produced: nat)

  datatype Manager = Manager(
    history: seq<Penalty>,
    offenseCount: map<Address, nat>,
    insuranceFund: nat,
    totalSlashed: nat,
    totalBurned: nat)

  const NEW_MANAGER := Manager([], map[], 0, 0, 0)

  datatype Distribution = Distribution(burn: nat, insurance: nat, whistleblower: nat)

  function Distribute(amount: nat): Distribution {
    Distribution(amount * 50 / 100, amount * 30 / 100, amount * 20 / 100)
  }

  /** Half is burned, three tenths insure, a fifth rewards; each share is rounded down. */
  lemma SharesAre(amount: nat)
    ensures Distribute(amount).burn == amount / 2
    ensures Distribute(amount).insurance == amount * 3 / 10
    ensures Distribute(amount).whistleblower == amount / 5
  {
  }

  /** A split loses at most two units, and none exactly when ten divides the amount. */
  lemma DistributionLoss(amount: nat)
    ensures var d := Distribute(amount);
      && 0 <= amount - (d.burn + d.insurance + d.whistleblower) <= 2
      && (d.burn + d.insurance + d.whistleblower == amount <==> amount % 10 == 0)
  {
    var q, r := amount / 10, amount % 10;
    assert amount * 50 / 100 == 5 * q + r * 50 / 100;
    assert amount * 30 / 100 == 3 * q + r * 30 / 100;
    assert amount * 20 / 100 == 2 * q + r * 20 / 100;
  }

  /** The slash: the floating-point penalty `raw`, capped by the low 64 bits of the stake. */
  function SlashAmount(stake: nat, raw: nat): nat {
    Min(raw, stake % U64)
  }

  function Offenses(m: Manager, a: Address): nat {
    if a in m.offenseCount then m.offenseCount[a] else 0
  }

  function PenaltyFor(m: Manager, v: Validator, condition: Condition, raw: nat, evidence: Option<Hash>): Penalty {
    Penalty(v.address, condition, SlashAmount(v.stake, raw), Offenses(m, v.address), evidence)
  }

  /** The ledger after recording a penalty. */
  function Record(m: Manager, p: Penalty): Manager {
    var d := Distribute(p.amount);
    Manager(
      m.history + [p],
      m.offenseCount[p.validator := Offenses(m, p.validator) + 1],
      m.insuranceFund + d.insurance,
      m.totalSlashed + p.amount,
      m.totalBurned + d.burn)
  }

  /** The validator after a penalty. */
  function Slashed(v: Validator, p: Penalty): Validator
    requires p.amount <= v.stake
  {
    v.(stake := v.stake - p.amount, slashed := v.slashed || p.condition.GovernanceAttack?)
  }

  /** The cap keeps every penalty within the stake, so slashing never fails. */
  lemma PenaltyWithinStake(m: Manager, v: Validator, condition: Condition, raw: nat, evidence: Option<Hash>)
    ensures PenaltyFor(m, v, condition, raw, evidence).amount <= v.stake
  {
    assert v.stake == U64 * (v.stake / U64) + v.stake % U64;
  }

  // ----- what every run keeps

  function Tally(history: seq<Penalty>, f: Penalty -> nat): nat {
    if history == [] then 0 else f(history[|history| - 1]) + Tally(history[..|history| - 1], f)
  }

  function Amount(p: Penalty): nat { p.amount }

  function InsuranceShare(p: Penalty): nat { p.amount * 3 / 10 }

  function BurnShare(p: Penalty): nat { p.amount / 2 }

  function Against(history: seq<Penalty>, a: Address): nat {
    if history == [] then 0
    else (if history[|history| - 1].validator == a then 1 else 0) + Against(history[..|history| - 1], a)
  }

  datatype Event =
    | Slash(validator: Address, condition: Condition, raw: nat, evidence: Option<Hash>)
    | Withdraw(amount: nat)

  /** The ledger beside the validators' stakes and the insurance paid out so far. */
  datatype Ledger = Ledger(manager: Manager, validators: map<Address, Validator>, withdrawn: nat)

  function Stake(v: Validator): nat { v.stake }

  function Step(l: Ledger, e: Event): Ledger {
    match e
    case Slash(a, condition, raw, evidence) =>
      if a !in l.validators then l
      else
        var v := l.validators[a];
        var p := PenaltyFor(l.manager, v, condition, raw, evidence);
        PenaltyWithinStake(l.manager, v, condition, raw, evidence);
        Ledger(Record(l.manager, p), l.validators[a := Slashed(v, p)], l.withdrawn)
    case Withdraw(amount) =>
      if l.manager.insuranceFund < amount then l
      else l.(manager := l.manager.(insuranceFund := l.manager.insuranceFund - amount),
              withdrawn := l.withdrawn + amount)
  }

  function Run(l: Ledger, es: seq<Event>): Ledger {
    if es == [] then l else Step(Run(l, es[..|es| - 1]), es[|es| - 1])
  }

  /** Totals are sums over the history; what was slashed is what the validators lost from `stakes`. */
  ghost predicate Balanced(l: Ledger, stakes: nat) {
    var m := l.manager;
    && (forall a :: a in l.validators ==> l.validators[a].address == a)
    && m.totalSlashed == Tally(m.history, Amount)
    && m.totalSlashed + Sum(l.validators, Stake) == stakes
    && m.insuranceFund + l.withdrawn == Tally(m.history, InsuranceShare)
    && m.totalBurned == Tally(m.history, BurnShare)
    && (forall a :: Offenses(m, a) == Against(m.history, a))
  }

  /** A slash takes exactly the penalty formula's value, or the low 64 bits of the stake if these are less, and records
      why, on what evidence and after how many earlier offences. */
  lemma SlashIsExact(l: Ledger, stakes: nat, a: Address, condition: Condition, raw: nat, evidence: Option<Hash>)
    requires Balanced(l, stakes) && a in l.validators
    ensures var l', v := Step(l, Slash(a, condition, raw, evidence)), l.validators[a];
      var low := v.stake % 0x1_0000_0000_0000_0000;
      var amount := if raw <= low then raw else low;
      && a in l'.validators
      && l'.validators[a].stake == v.stake - amount
      && (l'.validators[a].slashed <==> v.slashed || condition == GovernanceAttack)
      && (l'.validators[a].address, l'.validators[a].produced) == (a, v.produced)
      && l'.validators - {a} == l.validators - {a}
      && l'.manager.history ==
           l.manager.history + [Penalty(a, condition, amount, Against(l.manager.history, a), evidence)]
  {
    PenaltyWithinStake(l.manager, l.validators[a], condition, raw, evidence);
  }

  lemma StepBalanced(l: Ledger, stakes: nat, e: Event)
    requires Balanced(l, stakes)
    ensures Balanced(Step(l, e), stakes)
  {
    if e.Slash? && e.validator in l.validators {
      var v := l.validators[e.validator];
      var p := PenaltyFor(l.manager, v, e.condition, e.raw, e.evidence);
      PenaltyWithinStake(l.manager, v, e.condition, e.raw, e.evidence);
      SumSet(l.validators, Stake, e.validator, Slashed(v, p));
      SharesAre(p.amount);
      assert (l.manager.history + [p])[..|l.manager.history|] == l.manager.history;
    }
  }

  lemma {:induction false} RunsBalance(validators: map<Address, Validator>, es: seq<Event>)
    requires forall a :: a in validators ==> validators[a].address == a
    ensures Balanced(Run(Ledger(NEW_MANAGER, validators, 0), es), Sum(validators, Stake))
  {
    if es != [] {
      RunsBalance(validators, es[..|es| - 1]);
      StepBalanced(Run(Ledger(NEW_MANAGER, validators, 0), es[..|es| - 1]), Sum(validators, Stake), es[|es| - 1]);
    }
  }

  // ----- the stateful object

  class SlashingManager {
    var history: seq<Penalty>
    var offenseCount: map<Address, nat>
    var insuranceFund: nat
    var totalSlashed: nat
    var totalBurned: nat

    ghost function Value(): Manager
      reads this
    {
      Manager(history, offenseCount, insuranceFund, totalSlashed, totalBurned)
    }

    constructor ()
      ensures Value() == NEW_MANAGER
    {
      history, offenseCount := [], map[];
      insuranceFund, totalSlashed, totalBurned := 0, 0, 0;
    }

    /** Slashes the validator and returns its new value; neither failure branch of the source is reachable. */
    method SlashValidator(v: Validator, condition: Condition, raw: nat, evidence: Option<Hash>)
      returns (after: Validator, penalty: Penalty)
      modifies this
      ensures penalty == PenaltyFor(old(Value()), v, condition, raw, evidence)
      ensures penalty.amount <= v.stake && after == Slashed(v, penalty)
      ensures Value() == Record(old(Value()), penalty)
    {
      PenaltyWithinStake(Value(), v, condition, raw, evidence);
      var amount := SlashAmount(v.stake, raw);
      var previous := if v.address in offenseCount then offenseCount[v.address] else 0;
      penalty := Penalty(v.address, condition, amount, previous, evidence);
      after := v.(stake := v.stake - amount);
      var distribution := Distribute(amount);
      insuranceFund := insuranceFund + distribution.insurance;
      totalSlashed := totalSlashed + amount;
      totalBurned := totalBurned + distribution.burn;
      offenseCount := offenseCount[v.address := previous + 1];
      history := history + [penalty];
      if condition.GovernanceAttack? {
        after := after.(slashed := true);
      }
    }

    method WithdrawInsurance(amount: nat) returns (ok: bool)
      modifies `insuranceFund
      ensures ok <==> amount <= old(insuranceFund)
      ensures insuranceFund == if ok then old(insuranceFund) - amount else old(insuranceFund)
    {
      if insuranceFund < amount {
        return false;
      }
      insuranceFund := insuranceFund - amount;
      return true;
    }
  }
}
