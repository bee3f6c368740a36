/** The persisted state of the revenue-recognition service: the two client
    tables, the software catalogue, contracts and their payments. Every
    table with a database-generated identity is a sequence whose positions
    are the ids; no row of these tables is ever hard-deleted, so positions
    are stable. Individuals and companies live in separate tables, each
    with its own identity column, so the same id can name one of each.
    Money (`decimal`) is `real`; `DateTime` is an `int` count of seconds. */
module LedgerModel {
  import opened Outcome

  const SecondsPerDay: int := 86400

  /** A row of the IndividualClient table. */
  datatype IndividualClient = IndividualClient(
    firstName: string, lastName: string, pesel: string,
    address: string, email: string, phone: string, isDeleted: bool)

  /** A row of the CompanyClient table. */
  datatype CompanyClient = CompanyClient(
    companyName: string, krs: string,
    address: string, email: string, phone: string, isDeleted: bool)

  datatype Product = Product(name: string, description: string, version: string, category: string)

  datatype Discount = Discount(name: string, percentage: real, start: int, end: int, productId: int)

  datatype Contract = Contract(
    clientId: int,
    productId: int,
    version: string,
    startDate: int,
    endDate: int,
    price: real,
    supportYears: int,
    isSigned: bool,
    isActive: bool)

  datatype Payment = Payment(contractId: int, amount: real, date: int, isRefunded: bool)

  datatype Store = Store(
    individuals: seq<IndividualClient>,
    companies: seq<CompanyClient>,
    products: seq<Product>,
    discounts: seq<Discount>,
    contracts: seq<Contract>,
    payments: seq<Payment>)

  /** Every failure the service raises, one constructor per distinct check. */
  datatype LedgerError =
    | DurationOutOfRange
    | SupportYearsOutOfRange
    | ClientNotFound
    | ProductNotFound
    | ActiveContractExists
    | ContractNotFound
    | ContractSigned
    | PaymentOutsidePeriod
    | ContractInactive
    | PaymentExceedsPrice
    | PeselTaken
    | KrsTaken
    | RateNotFound
    | ExchangeServiceFailure

  /** The exception class each failure surfaces as. */
  datatype ExceptionKind = ArgumentException | NotFoundException | InvalidOperationException | RecordAlreadyExistsException | GeneralException

  function ExceptionOf(e: LedgerError): ExceptionKind {
    match e
    case DurationOutOfRange | SupportYearsOutOfRange => ArgumentException
    case ClientNotFound | ProductNotFound | ContractNotFound | RateNotFound => NotFoundException
    case ActiveContractExists | ContractSigned | PaymentOutsidePeriod | ContractInactive | PaymentExceedsPrice => InvalidOperationException
    case PeselTaken | KrsTaken => RecordAlreadyExistsException
    case ExchangeServiceFailure => GeneralException
  }

  predicate HasContract(s: Store, id: int) {
    0 <= id < |s.contracts|
  }

  /** Sum of the amounts of all payments recorded against contract `id`,
      refunded ones included (the service's `Payments.Sum` does not filter). */
  function PaidOn(ps: seq<Payment>, id: int): real {
    if |ps| == 0 then 0.0
    else PaidOn(ps[..|ps| - 1], id) + (if ps[|ps| - 1].contractId == id then ps[|ps| - 1].amount else 0.0)
  }

  lemma PaidOnAppend(ps: seq<Payment>, p: Payment, id: int)
    ensures PaidOn(ps + [p], id) == PaidOn(ps, id) + (if p.contractId == id then p.amount else 0.0)
  {
    assert (ps + [p])[..|ps|] == ps;
  }

  /** A contract that no payment references has been paid nothing. */
  lemma {:induction false} PaidOnUnreferenced(ps: seq<Payment>, id: int)
    requires forall k :: 0 <= k < |ps| ==> ps[k].contractId != id
    ensures PaidOn(ps, id) == 0.0
  {
    if |ps| > 0 {
      PaidOnUnreferenced(ps[..|ps| - 1], id);
    }
  }

  /** Sums depend only on which contract each payment belongs to and its
      amount: changing any other field (the refund flag) keeps every sum. */
  lemma {:induction false} PaidOnSameAmounts(ps: seq<Payment>, qs: seq<Payment>, id: int)
    requires |ps| == |qs|
    requires forall k :: 0 <= k < |ps| ==> ps[k].contractId == qs[k].contractId && ps[k].amount == qs[k].amount
    ensures PaidOn(ps, id) == PaidOn(qs, id)
  {
    if |ps| > 0 {
      PaidOnSameAmounts(ps[..|ps| - 1], qs[..|qs| - 1], id);
    }
  }

  /** At most one active contract per (client, product) pair. */
  ghost predicate ExclusiveActive(cs: seq<Contract>) {
    forall i, j :: 0 <= i < j < |cs| && cs[i].isActive && cs[j].isActive ==>
      cs[i].clientId != cs[j].clientId || cs[i].productId != cs[j].productId
  }

  /** Every payment belongs to an existing contract. */
  ghost predicate PaymentsReferenceContracts(s: Store) {
    forall k :: 0 <= k < |s.payments| ==> HasContract(s, s.payments[k].contractId)
  }

  /** No contract has been paid more than its price. */
  ghost predicate PaymentsCapped(s: Store) {
    forall id :: 0 <= id < |s.contracts| ==> PaidOn(s.payments, id) <= s.contracts[id].price
  }

  /** Discount percentages lie in 0..100. The service never checks this;
      it is what keeps a fresh contract's price non-negative. */
  ghost predicate DiscountsWellFormed(s: Store) {
    forall k :: 0 <= k < |s.discounts| ==> 0.0 <= s.discounts[k].percentage <= 100.0
  }

  /** PESEL numbers are unique among individuals. */
  ghost predicate PeselsUnique(xs: seq<IndividualClient>) {
    forall i, j :: 0 <= i < j < |xs| ==> xs[i].pesel != xs[j].pesel
  }

  /** KRS numbers are unique among companies. */
  ghost predicate KrsUnique(xs: seq<CompanyClient>) {
    forall i, j :: 0 <= i < j < |xs| ==> xs[i].krs != xs[j].krs
  }

  /** The ledger invariant every operation preserves. */
  ghost predicate Valid(s: Store) {
    && ExclusiveActive(s.contracts)
    && PaymentsReferenceContracts(s)
    && PaymentsCapped(s)
    && DiscountsWellFormed(s)
    && PeselsUnique(s.individuals)
    && KrsUnique(s.companies)
  }
}
