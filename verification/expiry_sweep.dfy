/** One cycle of the background contract-deactivation service: every
    active, unsigned contract whose end date has passed becomes inactive
    and all of its payments are flagged as refunded. The 24-hour wait
    between cycles and its cancellation are not part of the model; `now`
    is the clock reading taken at the start of the cycle. */
module ExpirySweep {
  import opened LedgerModel

  predicate Expiring(c: Contract, now: int) {
    c.isActive && !c.isSigned && c.endDate < now
  }

  /** Deactivates exactly the expiring contracts. */
  function ExpireContracts(cs: seq<Contract>, now: int): (r: seq<Contract>)
    ensures |r| == |cs|
    ensures forall k :: 0 <= k < |cs| && Expiring(cs[k], now) ==> r[k] == cs[k].(isActive := false)
    ensures forall k :: 0 <= k < |cs| && !Expiring(cs[k], now) ==> r[k] == cs[k]
  {
    if |cs| == 0 then []
    else
      var last := cs[|cs| - 1];
      ExpireContracts(cs[..|cs| - 1], now) + [if Expiring(last, now) then last.(isActive := false) else last]
  }

  predicate RefundDue(p: Payment, cs: seq<Contract>, now: int) {
    0 <= p.contractId < |cs| && Expiring(cs[p.contractId], now)
  }

  /** Flags every payment of an expiring contract as refunded. */
  function RefundPayments(ps: seq<Payment>, cs: seq<Contract>, now: int): (r: seq<Payment>)
    ensures |r| == |ps|
    ensures forall k :: 0 <= k < |ps| && RefundDue(ps[k], cs, now) ==> r[k] == ps[k].(isRefunded := true)
    ensures forall k :: 0 <= k < |ps| && !RefundDue(ps[k], cs, now) ==> r[k] == ps[k]
  {
    if |ps| == 0 then []
    else
      var last := ps[|ps| - 1];
      RefundPayments(ps[..|ps| - 1], cs, now) + [if RefundDue(last, cs, now) then last.(isRefunded := true) else last]
  }

  /** One sweep cycle over the whole store. */
  function Sweep(s: Store, now: int): (r: Store)
    ensures |r.contracts| == |s.contracts| && |r.payments| == |s.payments|
    ensures r.individuals == s.individuals && r.companies == s.companies && r.products == s.products && r.discounts == s.discounts
    ensures forall k :: 0 <= k < |s.contracts| && Expiring(s.contracts[k], now) ==>
              !r.contracts[k].isActive && r.contracts[k] == s.contracts[k].(isActive := false)
    ensures forall k :: 0 <= k < |s.contracts| && !Expiring(s.contracts[k], now) ==> r.contracts[k] == s.contracts[k]
    ensures forall k :: 0 <= k < |s.payments| && RefundDue(s.payments[k], s.contracts, now) ==>
              r.payments[k].isRefunded && r.payments[k] == s.payments[k].(isRefunded := true)
    ensures forall k :: 0 <= k < |s.payments| && !RefundDue(s.payments[k], s.contracts, now) ==> r.payments[k] == s.payments[k]
  {
    s.(contracts := ExpireContracts(s.contracts, now), payments := RefundPayments(s.payments, s.contracts, now))
  }

  /** The sweep only ever switches flags one way: it never activates or
      signs a contract, never unsigns one, and never clears a refund. */
  lemma SweepIsMonotone(s: Store, now: int)
    ensures var r := Sweep(s, now);
            && (forall k :: 0 <= k < |s.contracts| ==> r.contracts[k].isActive ==> s.contracts[k].isActive)
            && (forall k :: 0 <= k < |s.contracts| ==> r.contracts[k].isSigned == s.contracts[k].isSigned)
            && (forall k :: 0 <= k < |s.payments| ==> s.payments[k].isRefunded ==> r.payments[k].isRefunded)
            && (forall k :: 0 <= k < |s.payments| ==> r.payments[k].amount == s.payments[k].amount)
  {
  }

  /** With no contract to expire the cycle changes nothing. */
  lemma SweepWithoutMatchesIsIdentity(s: Store, now: int)
    requires forall k :: 0 <= k < |s.contracts| ==> !Expiring(s.contracts[k], now)
    ensures Sweep(s, now) == s
  {
    var r := Sweep(s, now);
    assert r.contracts == s.contracts;
    assert r.payments == s.payments;
  }

  /** After a cycle nothing is left to expire at the same instant, so a
      second cycle with the same clock reading is a no-op. */
  lemma SweepIdempotent(s: Store, now: int)
    ensures Sweep(Sweep(s, now), now) == Sweep(s, now)
  {
    var r := Sweep(s, now);
    assert forall k :: 0 <= k < |r.contracts| ==> !Expiring(r.contracts[k], now);
    SweepWithoutMatchesIsIdentity(r, now);
  }

  /** The sweep keeps the ledger invariant: it only clears active flags and
      sets refund flags, so exclusivity and the payment cap survive. */
  lemma SweepPreservesValid(s: Store, now: int)
    requires Valid(s)
    ensures Valid(Sweep(s, now))
  {
    var r := Sweep(s, now);
    SweepIsMonotone(s, now);
    forall id | 0 <= id < |r.contracts|
      ensures PaidOn(r.payments, id) == PaidOn(s.payments, id)
    {
      PaidOnSameAmounts(r.payments, s.payments, id);
    }
  }
}
