/** Payment acceptance (`AddContractPaymentAsync`): the contract must exist,
    the payment date must fall inside the contract period, the contract
    must be active, and the running total may not exceed the price. A
    payment that brings the total exactly to the price signs the contract. */
module PaymentLedger {
  import opened Outcome
  import opened LedgerModel

  predicate WithinPeriod(c: Contract, date: int) {
    c.startDate <= date <= c.endDate
  }

  function AddPayment(s: Store, contractId: int, amount: real, date: int): (r: Result<Store, LedgerError>)
    ensures !HasContract(s, contractId) ==> r == Err(ContractNotFound)
    ensures HasContract(s, contractId) && !WithinPeriod(s.contracts[contractId], date) ==>
              r == Err(PaymentOutsidePeriod)
    ensures (&& HasContract(s, contractId) && WithinPeriod(s.contracts[contractId], date)
             && !s.contracts[contractId].isActive) ==> r == Err(ContractInactive)
    ensures (&& HasContract(s, contractId) && WithinPeriod(s.contracts[contractId], date)
             && s.contracts[contractId].isActive
             && PaidOn(s.payments, contractId) + amount > s.contracts[contractId].price) ==> r == Err(PaymentExceedsPrice)
    ensures (&& HasContract(s, contractId) && WithinPeriod(s.contracts[contractId], date)
             && s.contracts[contractId].isActive
             && PaidOn(s.payments, contractId) + amount <= s.contracts[contractId].price) ==> r.Ok?
    ensures r.Ok? ==> HasContract(s, contractId) && s.contracts[contractId].isActive
    ensures r.Ok? ==> r.value.payments == s.payments + [Payment(contractId, amount, date, false)]
    ensures r.Ok? ==> PaidOn(r.value.payments, contractId) == PaidOn(s.payments, contractId) + amount
    ensures r.Ok? ==> PaidOn(r.value.payments, contractId) <= s.contracts[contractId].price
    ensures r.Ok? ==>
              && |r.value.contracts| == |s.contracts|
              && r.value.contracts[contractId] == s.contracts[contractId].(isSigned := r.value.contracts[contractId].isSigned)
              && (r.value.contracts[contractId].isSigned <==>
                    s.contracts[contractId].isSigned || PaidOn(r.value.payments, contractId) == s.contracts[contractId].price)
              && (forall k :: 0 <= k < |s.contracts| && k != contractId ==> r.value.contracts[k] == s.contracts[k])
    ensures r.Ok? ==> r.value.individuals == s.individuals && r.value.companies == s.companies && r.value.products == s.products && r.value.discounts == s.discounts
  {
    if !HasContract(s, contractId) then Err(ContractNotFound)
    else
      var c := s.contracts[contractId];
      if !WithinPeriod(c, date) then Err(PaymentOutsidePeriod)
      else if !c.isActive then Err(ContractInactive)
      else if PaidOn(s.payments, contractId) + amount > c.price then Err(PaymentExceedsPrice)
      else
        var ps := s.payments + [Payment(contractId, amount, date, false)];
        PaidOnAppend(s.payments, Payment(contractId, amount, date, false), contractId);
        var fullyPaid := PaidOn(ps, contractId) == c.price;
        Ok(s.(payments := ps, contracts := s.contracts[contractId := c.(isSigned := c.isSigned || fullyPaid)]))
  }

  /** An accepted payment keeps the ledger invariant; in particular no
      contract is ever paid beyond its price. */
  lemma AddPaymentPreservesValid(s: Store, contractId: int, amount: real, date: int)
    requires Valid(s)
    requires AddPayment(s, contractId, amount, date).Ok?
    ensures Valid(AddPayment(s, contractId, amount, date).value)
  {
    var s' := AddPayment(s, contractId, amount, date).value;
    var p := Payment(contractId, amount, date, false);
    forall id | 0 <= id < |s'.contracts|
      ensures PaidOn(s'.payments, id) <= s'.contracts[id].price
    {
      PaidOnAppend(s.payments, p, id);
    }
    assert ExclusiveActive(s'.contracts) by {
      assert forall k :: 0 <= k < |s.contracts| ==>
        s'.contracts[k].isActive == s.contracts[k].isActive
        && s'.contracts[k].clientId == s.contracts[k].clientId
        && s'.contracts[k].productId == s.contracts[k].productId;
    }
  }

  /** One installment of a payment plan: an amount and its date. */
  datatype Installment = Installment(amount: real, date: int)

  function Total(xs: seq<Installment>): real {
    if |xs| == 0 then 0.0 else xs[0].amount + Total(xs[1..])
  }

  /** Submits the installments one after the other against one contract,
      stopping at the first rejected payment. */
  function PayInstallments(s: Store, contractId: int, xs: seq<Installment>): (r: Result<Store, LedgerError>)
    ensures r.Ok? ==> |r.value.contracts| == |s.contracts|
    ensures r.Ok? && HasContract(s, contractId) ==>
              && r.value.contracts[contractId].price == s.contracts[contractId].price
              && PaidOn(r.value.payments, contractId) == PaidOn(s.payments, contractId) + Total(xs)
    ensures r.Ok? && |xs| > 0 ==> HasContract(s, contractId) && PaidOn(r.value.payments, contractId) <= s.contracts[contractId].price
    decreases |xs|
  {
    if |xs| == 0 then Ok(s)
    else
      match AddPayment(s, contractId, xs[0].amount, xs[0].date)
      case Err(e) => Err(e)
      case Ok(s1) => PayInstallments(s1, contractId, xs[1..])
  }

  /** Paying a contract in non-negative installments that are all accepted
      leaves it signed exactly when the installments add up to the price
      (or it was signed already); paying less never signs it. */
  lemma {:induction false} InstallmentsSignExactlyAtPrice(s: Store, contractId: int, xs: seq<Installment>)
    requires |xs| > 0
    requires forall k :: 0 <= k < |xs| ==> xs[k].amount >= 0.0
    requires PayInstallments(s, contractId, xs).Ok?
    ensures HasContract(s, contractId)
    ensures var s' := PayInstallments(s, contractId, xs).value;
            s'.contracts[contractId].isSigned <==>
              s.contracts[contractId].isSigned || PaidOn(s.payments, contractId) + Total(xs) == s.contracts[contractId].price
    decreases |xs|
  {
    var s1 := AddPayment(s, contractId, xs[0].amount, xs[0].date).value;
    var rest := xs[1..];
    assert PayInstallments(s, contractId, xs) == PayInstallments(s1, contractId, rest);
    assert Total(xs) == xs[0].amount + Total(rest);
    if |rest| > 0 {
      assert forall k :: 0 <= k < |rest| ==> rest[k].amount >= 0.0 by {
        assert forall k :: 0 <= k < |rest| ==> rest[k] == xs[k + 1];
      }
      InstallmentsSignExactlyAtPrice(s1, contractId, rest);
      TotalNonNegative(rest);
      var price := s.contracts[contractId].price;
      var p1 := PaidOn(s1.payments, contractId);
      if p1 == price {
        // the plan cannot go past the price, and no installment is negative
        assert p1 + Total(rest) == price;
      }
    }
  }

  lemma {:induction false} TotalNonNegative(xs: seq<Installment>)
    requires forall k :: 0 <= k < |xs| ==> xs[k].amount >= 0.0
    ensures Total(xs) >= 0.0
  {
    if |xs| > 0 {
      assert forall k :: 0 <= k < |xs[1..]| ==> xs[1..][k] == xs[k + 1];
      TotalNonNegative(xs[1..]);
    }
  }

  /** The documented scenario on a 10000 contract: 4000 then 6000 signs it;
      4000 then 7000 rejects the second payment. */
  lemma InstallmentExamples()
    ensures var c := Contract(0, 0, "1.0", 0, 10 * SecondsPerDay, 10000.0, 0, false, true);
            var s := Store([], [], [], [], [c], []);
            && PayInstallments(s, 0, [Installment(4000.0, 1), Installment(6000.0, 2)]).Ok?
            && PayInstallments(s, 0, [Installment(4000.0, 1), Installment(6000.0, 2)]).value.contracts[0].isSigned
            && AddPayment(s, 0, 4000.0, 1).Ok?
            && AddPayment(AddPayment(s, 0, 4000.0, 1).value, 0, 7000.0, 2) == Err(PaymentExceedsPrice)
  {
    var c := Contract(0, 0, "1.0", 0, 10 * SecondsPerDay, 10000.0, 0, false, true);
    var s := Store([], [], [], [], [c], []);
    var s1 := AddPayment(s, 0, 4000.0, 1).value;
    assert PaidOn(s1.payments, 0) == 4000.0;
    var s2 := AddPayment(s1, 0, 6000.0, 2).value;
    assert PaidOn(s2.payments, 0) == 10000.0;
  }
}
