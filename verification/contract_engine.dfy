/** Contract creation (validation order, pricing, exclusivity) and soft
    deletion, as performed by `AddContractAsync` and `DeleteContractByIdAsync`. */
module ContractEngine {
  import opened Outcome
  import opened LedgerModel

  const BasePrice: real := 10000.0
  const SupportYearPrice: real := 1000.0
  const LoyaltyRate: real := 0.05
  const MinDurationDays: int := 3
  const MaxDurationDays: int := 30
  const MaxSupportYears: int := 3

  datatype ContractRequest = ContractRequest(
    clientId: int,
    productId: int,
    version: string,
    startDate: int,
    endDate: int,
    supportYears: int)

  /** `(End - Start).TotalDays` lies in 3..30 inclusive. */
  predicate DurationInRange(req: ContractRequest) {
    MinDurationDays * SecondsPerDay <= req.endDate - req.startDate <= MaxDurationDays * SecondsPerDay
  }

  predicate SupportYearsInRange(req: ContractRequest) {
    0 <= req.supportYears <= MaxSupportYears
  }

  /** The client id is found in the individual table or, failing that, in
      the company table; the soft-delete flag is not consulted. */
  predicate ClientExists(s: Store, id: int) {
    0 <= id < |s.individuals| || 0 <= id < |s.companies|
  }

  predicate ProductMatches(s: Store, id: int, version: string) {
    0 <= id < |s.products| && s.products[id].version == version
  }

  predicate HasActiveContract(cs: seq<Contract>, clientId: int, productId: int) {
    exists k :: 0 <= k < |cs| && cs[k].clientId == clientId && cs[k].productId == productId && cs[k].isActive
  }

  /** A client is loyal once any of its contracts is signed. */
  predicate IsLoyal(cs: seq<Contract>, clientId: int) {
    exists k :: 0 <= k < |cs| && cs[k].clientId == clientId && cs[k].isSigned
  }

  predicate DiscountActive(d: Discount, productId: int, now: int) {
    d.productId == productId && d.start <= now <= d.end
  }

  /** The highest percentage among the product's discounts whose window
      contains `now`, or `None` when no discount is active. */
  function BestDiscount(ds: seq<Discount>, productId: int, now: int): (r: Option<real>)
    ensures r.None? <==> forall k :: 0 <= k < |ds| ==> !DiscountActive(ds[k], productId, now)
    ensures r.Some? ==> exists k :: 0 <= k < |ds| && DiscountActive(ds[k], productId, now) && ds[k].percentage == r.value
    ensures r.Some? ==> forall k :: 0 <= k < |ds| && DiscountActive(ds[k], productId, now) ==> ds[k].percentage <= r.value
  {
    if |ds| == 0 then None
    else
      var rest := BestDiscount(ds[1..], productId, now);
      assert forall k :: 1 <= k < |ds| ==> ds[k] == ds[1..][k - 1];
      if !DiscountActive(ds[0], productId, now) then rest
      else if rest.Some? && ds[0].percentage <= rest.value then rest
      else Some(ds[0].percentage)
  }

  function ListPrice(supportYears: int): real {
    BasePrice + SupportYearPrice * (supportYears as real)
  }

  /** List price, less the best active discount, less the loyalty cut; the
      two reductions apply one after the other. */
  function ContractPrice(supportYears: int, best: Option<real>, loyal: bool): real {
    var list := ListPrice(supportYears);
    var discounted := if best.Some? then list - list * (best.value / 100.0) else list;
    if loyal then discounted - discounted * LoyaltyRate else discounted
  }

  /** With percentages in 0..100 the price is never negative and never above
      the list price. */
  lemma PriceWithinListPrice(supportYears: int, best: Option<real>, loyal: bool)
    requires 0 <= supportYears
    requires best.Some? ==> 0.0 <= best.value <= 100.0
    ensures 0.0 <= ContractPrice(supportYears, best, loyal) <= ListPrice(supportYears)
  {
    var list := ListPrice(supportYears);
    assert list > 0.0;
    var discounted := list;
    if best.Some? {
      var f := best.value / 100.0;
      ScaleWithin(list, f);
      discounted := list - list * f;
    }
    assert 0.0 <= discounted <= list;
    ScaleWithin(discounted, LoyaltyRate);
    assert ContractPrice(supportYears, best, loyal) == if loyal then discounted - discounted * LoyaltyRate else discounted;
  }

  /** Taking a share between none and all of a non-negative amount. */
  lemma ScaleWithin(a: real, f: real)
    requires 0.0 <= a && 0.0 <= f <= 1.0
    ensures 0.0 <= a * f <= a
  {
    assert a * f <= a * 1.0 by {
      assert a * (1.0 - f) >= 0.0;
    }
  }

  /** Worked prices: one support year with no discount and no loyalty costs
      11000; two years with a 20% discount cost 9600, and 9120 for a loyal client. */
  lemma PriceExamples()
    ensures ContractPrice(1, None, false) == 11000.0
    ensures ContractPrice(2, Some(20.0), false) == 9600.0
    ensures ContractPrice(2, Some(20.0), true) == 9120.0
  {
  }

  function NewContract(s: Store, req: ContractRequest, now: int): Contract {
    var price := ContractPrice(req.supportYears, BestDiscount(s.discounts, req.productId, now), IsLoyal(s.contracts, req.clientId));
    Contract(req.clientId, req.productId, req.version, req.startDate, req.endDate, price, req.supportYears, false, true)
  }

  /** `AddContractAsync`: the checks run in the order duration, support
      years, client, product/version, existing active contract; the first
      one that fails decides the error and nothing is stored. */
  function CreateContract(s: Store, req: ContractRequest, now: int): (r: Result<Store, LedgerError>)
    ensures !DurationInRange(req) ==> r == Err(DurationOutOfRange)
    ensures DurationInRange(req) && !SupportYearsInRange(req) ==> r == Err(SupportYearsOutOfRange)
    ensures DurationInRange(req) && SupportYearsInRange(req) && !ClientExists(s, req.clientId) ==>
              r == Err(ClientNotFound)
    ensures (&& DurationInRange(req) && SupportYearsInRange(req) && ClientExists(s, req.clientId)
             && !ProductMatches(s, req.productId, req.version)) ==> r == Err(ProductNotFound)
    ensures (&& DurationInRange(req) && SupportYearsInRange(req) && ClientExists(s, req.clientId)
             && ProductMatches(s, req.productId, req.version)
             && HasActiveContract(s.contracts, req.clientId, req.productId)) ==> r == Err(ActiveContractExists)
    ensures (&& DurationInRange(req) && SupportYearsInRange(req) && ClientExists(s, req.clientId)
             && ProductMatches(s, req.productId, req.version)
             && !HasActiveContract(s.contracts, req.clientId, req.productId)) ==> r.Ok?
    ensures r.Ok? ==> !HasActiveContract(s.contracts, req.clientId, req.productId)
    ensures r.Ok? ==> |r.value.contracts| == |s.contracts| + 1 && r.value.contracts[..|s.contracts|] == s.contracts
    ensures r.Ok? ==> r.value == s.(contracts := r.value.contracts)
    ensures r.Ok? ==>
              var c := r.value.contracts[|s.contracts|];
              && c.clientId == req.clientId && c.productId == req.productId && c.version == req.version
              && c.startDate == req.startDate && c.endDate == req.endDate && c.supportYears == req.supportYears
              && c.isActive && !c.isSigned
              && c.price == ContractPrice(req.supportYears, BestDiscount(s.discounts, req.productId, now), IsLoyal(s.contracts, req.clientId))
  {
    if !DurationInRange(req) then Err(DurationOutOfRange)
    else if !SupportYearsInRange(req) then Err(SupportYearsOutOfRange)
    else if !ClientExists(s, req.clientId) then Err(ClientNotFound)
    else if !ProductMatches(s, req.productId, req.version) then Err(ProductNotFound)
    else if HasActiveContract(s.contracts, req.clientId, req.productId) then Err(ActiveContractExists)
    else
      var cs := s.contracts + [NewContract(s, req, now)];
      assert cs[..|s.contracts|] == s.contracts;
      Ok(s.(contracts := cs))
  }

  /** Creation keeps the ledger invariant: the new contract is the only
      active one for its (client, product) pair, it has no payments yet, and
      its price is non-negative. */
  lemma CreatePreservesValid(s: Store, req: ContractRequest, now: int)
    requires Valid(s)
    requires CreateContract(s, req, now).Ok?
    ensures Valid(CreateContract(s, req, now).value)
  {
    var s' := CreateContract(s, req, now).value;
    var n := |s.contracts|;
    var c := s'.contracts[n];
    assert forall k :: 0 <= k < n ==> s'.contracts[k] == s.contracts[k];
    assert ExclusiveActive(s'.contracts) by {
      forall i, j | 0 <= i < j < |s'.contracts| && s'.contracts[i].isActive && s'.contracts[j].isActive
        ensures s'.contracts[i].clientId != s'.contracts[j].clientId || s'.contracts[i].productId != s'.contracts[j].productId
      {
        if j == n {
          assert !HasActiveContract(s.contracts, req.clientId, req.productId);
          assert s.contracts[i] == s'.contracts[i];
        }
      }
    }
    var best := BestDiscount(s.discounts, req.productId, now);
    if best.Some? {
      var k :| 0 <= k < |s.discounts| && DiscountActive(s.discounts[k], req.productId, now) && s.discounts[k].percentage == best.value;
    }
    PriceWithinListPrice(req.supportYears, best, IsLoyal(s.contracts, req.clientId));
    assert forall k :: 0 <= k < |s.payments| ==> s.payments[k].contractId != n;
    PaidOnUnreferenced(s.payments, n);
  }

  /** `DeleteContractByIdAsync`: a missing id is NotFound, a signed contract
      cannot be deleted, and otherwise only its active flag is cleared. */
  function DeleteContract(s: Store, id: int): (r: Result<Store, LedgerError>)
    ensures !HasContract(s, id) ==> r == Err(ContractNotFound)
    ensures HasContract(s, id) && s.contracts[id].isSigned ==> r == Err(ContractSigned)
    ensures HasContract(s, id) && !s.contracts[id].isSigned ==> r.Ok?
    ensures r.Ok? ==>
              && |r.value.contracts| == |s.contracts|
              && !r.value.contracts[id].isActive
              && r.value.contracts[id] == s.contracts[id].(isActive := false)
              && (forall k :: 0 <= k < |s.contracts| && k != id ==> r.value.contracts[k] == s.contracts[k])
              && r.value == s.(contracts := r.value.contracts)
  {
    if !HasContract(s, id) then Err(ContractNotFound)
    else if s.contracts[id].isSigned then Err(ContractSigned)
    else Ok(s.(contracts := s.contracts[id := s.contracts[id].(isActive := false)]))
  }

  lemma DeletePreservesValid(s: Store, id: int)
    requires Valid(s)
    requires DeleteContract(s, id).Ok?
    ensures Valid(DeleteContract(s, id).value)
  {
  }

  /** The documented example: one support year, no discount, a client with
      no signed contract, five days long: the stored price is 11000. */
  lemma CreateExample()
    ensures var s := Store([IndividualClient("Jan", "Kowalski", "12345678901", "Sezamkowa", "jan@test.com", "123456789", false)], [],
                           [Product("Test", "Test description", "1.0", "Test category")], [], [], []);
            var r := CreateContract(s, ContractRequest(0, 0, "1.0", 0, 5 * SecondsPerDay, 1), 0);
            r.Ok? && r.value.contracts[0].price == 11000.0 && r.value.contracts[0].isActive && !r.value.contracts[0].isSigned
  {
  }

  /** A contract records only the client id, not which client table the id
      was found in. In a store holding individual 0 and company 0, an active
      contract under id 0 blocks a new contract for id 0 on that product
      whichever of the two clients each is meant for, and a signed one makes
      both count as loyal. */
  lemma ContractsCoupleSameIds()
    ensures var s := Store([IndividualClient("Jan", "Kowalski", "12345678901", "Sezamkowa", "jan@klient.com", "123456789", false)],
                           [CompanyClient("Test Corp", "KRS001", "Business Street", "contact@testcorp.com", "123456700", false)],
                           [Product("ApbdPro", "Apbd master software", "1.0", "DataBase")], [],
                           [Contract(0, 0, "1.0", 0, 5 * SecondsPerDay, 9500.0, 0, true, true)], []);
            && CreateContract(s, ContractRequest(0, 0, "1.0", 0, 5 * SecondsPerDay, 0), 0) == Err(ActiveContractExists)
            && IsLoyal(s.contracts, 0)
  {
    var cs := [Contract(0, 0, "1.0", 0, 5 * SecondsPerDay, 9500.0, 0, true, true)];
    assert cs[0].clientId == 0 && cs[0].productId == 0 && cs[0].isActive;
    assert HasActiveContract(cs, 0, 0);
  }
}
