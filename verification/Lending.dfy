/** The lending ledger (lending.rs). */
module Lending {
  import opened Types
  import opened Sums

  datatype LoanStatus = Active | Repaid | Liquidated | Defaulted

  datatype Loan = Loan(
    borrower: Address,
    principal: nat,
    interest: nat,
    collateral: nat,
    rate: nat,
    borrowedAt: nat,
    lastAccrual: nat,
    status: LoanStatus)

  datatype Book = Book(totalBorrowed: nat, totalSupplied: nat, loans: map<Hash, Loan>)

  const EMPTY_BOOK := Book(0, 0, map[])

  datatype LendingError =
    | InsufficientLiquidity | InsufficientCollateral | NotFound | NotActive | NotLiquidatable | Underflow

  // ----- the operations as functions, each giving the new book and its answer

  function Available(b: Book): nat {
    if b.totalSupplied < b.totalBorrowed then 0 else b.totalSupplied - b.totalBorrowed
  }

  /** `required` and `rate` come from the floating-point model, `id` from hashing borrower and time. */
  function Borrow(b: Book, borrower: Address, amount: nat, collateral: nat, required: nat, rate: nat, now: nat,
                  id: Hash): (Book, Result<Hash, LendingError>)
  {
    if Available(b) < amount then (b, Failure(InsufficientLiquidity))
    else if collateral < required then (b, Failure(InsufficientCollateral))
    else
      var loan := Loan(borrower, amount, 0, collateral, rate, now, now, Active);
      (b.(totalBorrowed := b.totalBorrowed + amount, loans := b.loans[id := loan]), Success(id))
  }

  function Accrued(loan: Loan, newInterest: nat, now: nat): Loan {
    loan.(interest := loan.interest + newInterest, lastAccrual := now)
  }

  function Debt(loan: Loan): nat {
    loan.principal + loan.interest
  }

  /** A partial payment: interest first, then principal. */
  function PaidDown(loan: Loan, amount: nat): Loan
    requires amount < Debt(loan)
  {
    if amount <= loan.interest then loan.(interest := loan.interest - amount)
    else loan.(interest := 0, principal := loan.principal - (amount - loan.interest))
  }

  /** Answers with the collateral returned and the debt remaining; `newInterest` accrues first. */
  function Repay(b: Book, id: Hash, amount: nat, newInterest: nat, now: nat): (Book, Result<(nat, nat), LendingError>) {
    if id !in b.loans then (b, Failure(NotFound))
    else if b.loans[id].status != Active then (b, Failure(NotActive))
    else
      var loan := Accrued(b.loans[id], newInterest, now);
      var closing := amount >= Debt(loan);
      var loan' := if closing then loan.(status := Repaid) else PaidDown(loan, amount);
      var drop := if closing then loan.principal else loan.principal - loan'.principal;
      var b' := b.(loans := b.loans[id := loan']);
      if b.totalBorrowed < drop then (b', Failure(Underflow))
      else (b'.(totalBorrowed := b.totalBorrowed - drop),
            Success(if closing then (loan.collateral, 0) else (0, Debt(loan) - amount)))
  }

  /** `unhealthy` is the floating-point health comparison. */
  function Liquidate(b: Book, id: Hash, unhealthy: bool): (Book, Result<(Address, nat), LendingError>) {
    if id !in b.loans then (b, Failure(NotFound))
    else if b.loans[id].status != Active || !unhealthy then (b, Failure(NotLiquidatable))
    else
      var loan := b.loans[id];
      var b' := b.(loans := b.loans[id := loan.(status := Liquidated)]);
      if b.totalBorrowed < loan.principal then (b', Failure(Underflow))
      else (b'.(totalBorrowed := b.totalBorrowed - loan.principal), Success((loan.borrower, loan.collateral)))
  }

  // ----- what every run keeps

  function Outstanding(loan: Loan): nat {
    if loan.status == Active then loan.principal else 0
  }

  /** All of the borrowed total is outstanding, but for `lost`, and it is within what was supplied. */
  ghost predicate Accounted(b: Book, lost: nat) {
    b.totalBorrowed == Sum(b.loans, Outstanding) + lost && b.totalBorrowed <= b.totalSupplied
  }

  ghost predicate Balanced(b: Book) {
    Accounted(b, 0)
  }

  lemma LoanWithinTotal(b: Book, lost: nat, id: Hash)
    requires Accounted(b, lost) && id in b.loans
    ensures Outstanding(b.loans[id]) <= b.totalBorrowed
  {
    SumOut(b.loans, Outstanding, id);
  }

  /** The outstanding principal stored under an id. */
  function Held(b: Book, id: Hash): nat {
    if id in b.loans then Outstanding(b.loans[id]) else 0
  }

  /** A borrow is accepted exactly when liquidity and collateral suffice; then a new loan is all that is stored. */
  lemma BorrowIff(b: Book, borrower: Address, amount: nat, collateral: nat, required: nat, rate: nat, now: nat,
                  id: Hash)
    ensures var (b', r) := Borrow(b, borrower, amount, collateral, required, rate, now, id);
      var liquid := amount == 0 || b.totalBorrowed + amount <= b.totalSupplied;
      && (r.Success? <==> liquid && collateral >= required)
      && (r == Failure(InsufficientLiquidity) <==> !liquid)
      && (r.Failure? ==> b' == b)
      && (r.Success? ==>
            && r.value == id && id in b'.loans
            && b'.loans[id].borrower == borrower && b'.loans[id].principal == amount && b'.loans[id].interest == 0
            && b'.loans[id].collateral == collateral && b'.loans[id].rate == rate
            && b'.loans[id].borrowedAt == now && b'.loans[id].lastAccrual == now && b'.loans[id].status == Active
            && b'.loans - {id} == b.loans - {id}
            && b'.totalSupplied == b.totalSupplied && b'.totalBorrowed == b.totalBorrowed + amount)
  {
  }

  /** An accepted borrow loses exactly the outstanding principal its id replaces. */
  lemma BorrowLoses(b: Book, lost: nat, borrower: Address, amount: nat, collateral: nat, required: nat, rate: nat,
                    now: nat, id: Hash)
    requires Accounted(b, lost) && Borrow(b, borrower, amount, collateral, required, rate, now, id).1.Success?
    ensures Accounted(Borrow(b, borrower, amount, collateral, required, rate, now, id).0, lost + Held(b, id))
  {
    SumSet(b.loans, Outstanding, id, Loan(borrower, amount, 0, collateral, rate, now, now, Active));
  }

  /** A borrow keeps the books balanced exactly when its id replaces no outstanding principal. */
  lemma BorrowBalancedIff(b: Book, borrower: Address, amount: nat, collateral: nat, required: nat, rate: nat, now: nat,
                          id: Hash)
    requires Balanced(b) && Borrow(b, borrower, amount, collateral, required, rate, now, id).1.Success?
    ensures Balanced(Borrow(b, borrower, amount, collateral, required, rate, now, id).0) <==> Held(b, id) == 0
  {
    BorrowLoses(b, 0, borrower, amount, collateral, required, rate, now, id);
  }

  /** A repayment never underflows, and moves debt and total by exactly what is paid. */
  lemma RepayIsExact(b: Book, lost: nat, id: Hash, amount: nat, newInterest: nat, now: nat)
    requires Accounted(b, lost)
    ensures var (b', r) := Repay(b, id, amount, newInterest, now);
      && Accounted(b', lost)
      && r != Failure(Underflow)
      && (r == Failure(NotFound) <==> id !in b.loans)
      && (r.Success? <==> id in b.loans && b.loans[id].status == Active)
      && (r.Failure? ==> b' == b)
      && b'.totalSupplied == b.totalSupplied && b'.loans - {id} == b.loans - {id}
      && (r.Success? ==>
            var loan := b.loans[id];
            var loan' := b'.loans[id];
            && loan'.lastAccrual == now
            && (loan'.borrower, loan'.collateral, loan'.rate, loan'.borrowedAt) ==
               (loan.borrower, loan.collateral, loan.rate, loan.borrowedAt)
            && if amount >= Debt(loan) + newInterest then
              && loan'.status == Repaid
              && r.value == (loan.collateral, 0)
              && b.totalBorrowed - b'.totalBorrowed == loan.principal
            else
              && loan'.status == Active
              && Debt(loan') + amount == Debt(loan) + newInterest
              && r.value == (0, Debt(loan'))
              && b.totalBorrowed - b'.totalBorrowed == loan.principal - loan'.principal
              && (loan'.principal < loan.principal ==> loan'.interest == 0))
  {
    if id in b.loans && b.loans[id].status == Active {
      LoanWithinTotal(b, lost, id);
      SumSet(b.loans, Outstanding, id, Repay(b, id, amount, newInterest, now).0.loans[id]);
    }
  }

  /** A liquidation never underflows, and takes exactly the principal off the total. */
  lemma LiquidateIsExact(b: Book, lost: nat, id: Hash, unhealthy: bool)
    requires Accounted(b, lost)
    ensures var (b', r) := Liquidate(b, id, unhealthy);
      && Accounted(b', lost)
      && r != Failure(Underflow)
      && (r == Failure(NotFound) <==> id !in b.loans)
      && (r.Success? <==> id in b.loans && b.loans[id].status == Active && unhealthy)
      && (r.Failure? ==> b' == b)
      && b'.totalSupplied == b.totalSupplied && b'.loans - {id} == b.loans - {id}
      && (r.Success? ==>
            && b'.loans[id] == b.loans[id].(status := Liquidated)
            && r.value == (b.loans[id].borrower, b.loans[id].collateral)
            && b.totalBorrowed - b'.totalBorrowed == b.loans[id].principal)
  {
    if id in b.loans && b.loans[id].status == Active {
      LoanWithinTotal(b, lost, id);
      SumSet(b.loans, Outstanding, id, b.loans[id].(status := Liquidated));
    }
  }

  datatype Event =
    | Supplied(amount: nat)
    | Borrowed(borrower: Address, amount: nat, collateral: nat, required: nat, rate: nat, now: nat, id: Hash)
    | Paid(id: Hash, amount: nat, newInterest: nat, now: nat)
    | Seized(id: Hash, unhealthy: bool)

  function Step(b: Book, e: Event): Book {
    match e
    case Supplied(amount) => b.(totalSupplied := b.totalSupplied + amount)
    case Borrowed(borrower, amount, collateral, required, rate, now, id) =>
      Borrow(b, borrower, amount, collateral, required, rate, now, id).0
    case Paid(id, amount, newInterest, now) => Repay(b, id, amount, newInterest, now).0
    case Seized(id, unhealthy) => Liquidate(b, id, unhealthy).0
  }

  function Run(b: Book, es: seq<Event>): Book {
    if es == [] then b else Step(Run(b, es[..|es| - 1]), es[|es| - 1])
  }

  predicate Accepted(b: Book, e: Event)
    requires e.Borrowed?
  {
    Borrow(b, e.borrower, e.amount, e.collateral, e.required, e.rate, e.now, e.id).1.Success?
  }

  /** The outstanding principal that one event replaces. */
  function Replaced(b: Book, e: Event): nat {
    if e.Borrowed? && Accepted(b, e) then Held(b, e.id) else 0
  }

  /** The outstanding principal replaced over a run. */
  function Lost(es: seq<Event>): nat {
    if es == [] then 0
    else Lost(es[..|es| - 1]) + Replaced(Run(EMPTY_BOOK, es[..|es| - 1]), es[|es| - 1])
  }

  lemma StepAccounts(b: Book, lost: nat, e: Event)
    requires Accounted(b, lost)
    ensures Accounted(Step(b, e), lost + Replaced(b, e))
  {
    match e
    case Supplied(_) =>
    case Borrowed(borrower, amount, collateral, required, rate, now, id) =>
      if Accepted(b, e) {
        BorrowLoses(b, lost, borrower, amount, collateral, required, rate, now, id);
      }
    case Paid(id, amount, newInterest, now) =>
      RepayIsExact(b, lost, id, amount, newInterest, now);
    case Seized(id, unhealthy) =>
      LiquidateIsExact(b, lost, id, unhealthy);
  }

  /** In every run the borrowed total is the outstanding principal and what was replaced, within what was supplied. */
  lemma {:induction false} RunsAccount(es: seq<Event>)
    ensures Accounted(Run(EMPTY_BOOK, es), Lost(es))
  {
    if es != [] {
      var before := es[..|es| - 1];
      RunsAccount(before);
      StepAccounts(Run(EMPTY_BOOK, before), Lost(before), es[|es| - 1]);
    }
  }

  /** What was supplied over a run. */
  function SuppliedIn(es: seq<Event>): nat {
    if es == [] then 0
    else SuppliedIn(es[..|es| - 1]) + if es[|es| - 1].Supplied? then es[|es| - 1].amount else 0
  }

  lemma {:induction false} RunsSupply(es: seq<Event>)
    ensures Run(EMPTY_BOOK, es).totalSupplied == SuppliedIn(es)
  {
    if es != [] {
      RunsSupply(es[..|es| - 1]);
    }
  }

  /** No repayment or liquidation after any run underflows. */
  lemma UnderflowIsDead(es: seq<Event>, id: Hash, amount: nat, newInterest: nat, now: nat, unhealthy: bool)
    ensures Repay(Run(EMPTY_BOOK, es), id, amount, newInterest, now).1 != Failure(Underflow)
    ensures Liquidate(Run(EMPTY_BOOK, es), id, unhealthy).1 != Failure(Underflow)
  {
    RunsAccount(es);
    RepayIsExact(Run(EMPTY_BOOK, es), Lost(es), id, amount, newInterest, now);
    LiquidateIsExact(Run(EMPTY_BOOK, es), Lost(es), id, unhealthy);
  }

  /** No accepted borrow of the run has the id of a loan with outstanding principal. */
  ghost predicate ReplacesNothing(es: seq<Event>) {
    forall i :: 0 <= i < |es| && es[i].Borrowed? && Accepted(Run(EMPTY_BOOK, es[..i]), es[i]) ==>
      Held(Run(EMPTY_BOOK, es[..i]), es[i].id) == 0
  }

  lemma {:induction false} LostNothingIff(es: seq<Event>)
    ensures Lost(es) == 0 <==> ReplacesNothing(es)
  {
    if es != [] {
      var before := es[..|es| - 1];
      LostNothingIff(before);
      assert forall i :: 0 <= i < |before| ==> before[..i] == es[..i] && before[i] == es[i];
    }
  }

  /** A run ends balanced exactly when none of its accepted borrows replaces outstanding principal. */
  lemma RunsBalanceIff(es: seq<Event>)
    ensures Balanced(Run(EMPTY_BOOK, es)) <==> ReplacesNothing(es)
  {
    RunsAccount(es);
    LostNothingIff(es);
  }

  /** Two loans of one borrower at one time get the same id, and the first is lost from the books. */
  lemma ReusedIdUnbalances(supply: nat, x: Event, y: Event)
    requires x.Borrowed? && y.Borrowed? && x.id == y.id && x.amount > 0 && supply >= x.amount + y.amount
    requires x.collateral >= x.required && y.collateral >= y.required
    ensures !Balanced(Run(EMPTY_BOOK, [Supplied(supply), x, y]))
  {
    var es := [Supplied(supply), x, y];
    RunNext([], Supplied(supply));
    RunNext([Supplied(supply)], x);
    assert [] + [Supplied(supply)] == [Supplied(supply)] && [Supplied(supply)] + [x] == es[..2];
    assert Accepted(Run(EMPTY_BOOK, es[..2]), es[2]) && Held(Run(EMPTY_BOOK, es[..2]), y.id) == x.amount;
    RunsBalanceIff(es);
  }

  lemma RunNext(es: seq<Event>, e: Event)
    ensures Run(EMPTY_BOOK, es + [e]) == Step(Run(EMPTY_BOOK, es), e)
  {
    assert (es + [e])[..|es|] == es;
  }

  // ----- the stateful object

  class LendingPool {
    var totalBorrowed: nat
    var totalSupplied: nat
    var loans: map<Hash, Loan>

    ghost function Value(): Book
      reads this
    {
      Book(totalBorrowed, totalSupplied, loans)
    }

    constructor ()
      ensures Value() == EMPTY_BOOK
    {
      totalBorrowed, totalSupplied, loans := 0, 0, map[];
    }

    /** `deposited` says whether the base pool accepted the deposit. */
    method SupplyLiquidity(amount: nat, deposited: bool) returns (ok: bool)
      modifies `totalSupplied
      ensures ok == deposited
      ensures Value() == if ok then Step(old(Value()), Supplied(amount)) else old(Value())
    {
      if deposited {
        totalSupplied := totalSupplied + amount;
      }
      return deposited;
    }

    method TakeLoan(borrower: Address, amount: nat, collateral: nat, required: nat, rate: nat, now: nat, id: Hash)
      returns (r: Result<Hash, LendingError>)
      modifies `totalBorrowed, `loans
      ensures (Value(), r) == Borrow(old(Value()), borrower, amount, collateral, required, rate, now, id)
    {
      var available := if totalSupplied < totalBorrowed then 0 else totalSupplied - totalBorrowed;
      if available < amount {
        return Failure(InsufficientLiquidity);
      }
      if collateral < required {
        return Failure(InsufficientCollateral);
      }
      totalBorrowed := totalBorrowed + amount;
      loans := loans[id := Loan(borrower, amount, 0, collateral, rate, now, now, Active)];
      return Success(id);
    }

    method RepayLoan(id: Hash, amount: nat, newInterest: nat, now: nat) returns (r: Result<(nat, nat), LendingError>)
      modifies `totalBorrowed, `loans
      ensures (Value(), r) == Repay(old(Value()), id, amount, newInterest, now)
    {
      if id !in loans {
        return Failure(NotFound);
      }
      var loan := loans[id];
      if loan.status != Active {
        return Failure(NotActive);
      }
      loan := Accrued(loan, newInterest, now);
      var debt := loan.principal + loan.interest;
      var remaining := debt - Min(amount, debt);
      if remaining == 0 {
        loan := loan.(status := Repaid);
        loans := loans[id := loan];
        if totalBorrowed < loan.principal {
          return Failure(Underflow);
        }
        totalBorrowed := totalBorrowed - loan.principal;
        return Success((loan.collateral, 0));
      }
      if amount <= loan.interest {
        loans := loans[id := loan.(interest := loan.interest - amount)];
      } else {
        var payment := amount - loan.interest;
        loans := loans[id := loan.(interest := 0, principal := loan.principal - payment)];
        if totalBorrowed < payment {
          return Failure(Underflow);
        }
        totalBorrowed := totalBorrowed - payment;
      }
      return Success((0, remaining));
    }

    method LiquidateLoan(id: Hash, unhealthy: bool) returns (r: Result<(Address, nat), LendingError>)
      modifies `totalBorrowed, `loans
      ensures (Value(), r) == Liquidate(old(Value()), id, unhealthy)
    {
      if id !in loans {
        return Failure(NotFound);
      }
      var loan := loans[id];
      if loan.status != Active || !unhealthy {
        return Failure(NotLiquidatable);
      }
      loans := loans[id := loan.(status := Liquidated)];
      if totalBorrowed < loan.principal {
        return Failure(Underflow);
      }
      totalBorrowed := totalBorrowed - loan.principal;
      return Success((loan.borrower, loan.collateral));
    }
  }
}
