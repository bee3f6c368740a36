/** Client records of the revenue-recognition service: adding individuals
    and companies with unique PESEL / KRS numbers, updating them, the soft
    deletion of individuals and the client listing. Each kind has its own
    table and its own ids. */
module ClientRegistry {
  import opened Outcome
  import opened LedgerModel

  const Removed: string := "REMOVED"

  datatype IndividualData = IndividualData(firstName: string, lastName: string, address: string, email: string, phone: string, pesel: string)
  datatype IndividualUpdate = IndividualUpdate(firstName: string, lastName: string, address: string, email: string, phone: string)
  datatype CompanyData = CompanyData(companyName: string, address: string, email: string, phone: string, krs: string)
  datatype CompanyUpdate = CompanyUpdate(companyName: string, address: string, email: string, phone: string)

  /** The PESEL check looks at every individual, soft-deleted ones included. */
  predicate PeselInUse(xs: seq<IndividualClient>, pesel: string) {
    exists k :: 0 <= k < |xs| && xs[k].pesel == pesel
  }

  predicate KrsInUse(xs: seq<CompanyClient>, krs: string) {
    exists k :: 0 <= k < |xs| && xs[k].krs == krs
  }

  /** An individual that update and delete can find: present and not
      soft-deleted. */
  predicate LiveIndividual(xs: seq<IndividualClient>, id: int) {
    0 <= id < |xs| && !xs[id].isDeleted
  }

  predicate IsCompany(xs: seq<CompanyClient>, id: int) {
    0 <= id < |xs|
  }

  /** The new individual takes the next id of the individual table; the
      companies and the rest of the ledger are untouched. */
  function AddIndividual(s: Store, d: IndividualData): (r: Result<Store, LedgerError>)
    ensures PeselInUse(s.individuals, d.pesel) <==> r == Err(PeselTaken)
    ensures r.Ok? ==>
              && r.value == s.(individuals := r.value.individuals)
              && |r.value.individuals| == |s.individuals| + 1
              && r.value.individuals[..|s.individuals|] == s.individuals
              && r.value.individuals[|s.individuals|]
                 == IndividualClient(d.firstName, d.lastName, d.pesel, d.address, d.email, d.phone, false)
  {
    if PeselInUse(s.individuals, d.pesel) then Err(PeselTaken)
    else
      var xs := s.individuals + [IndividualClient(d.firstName, d.lastName, d.pesel, d.address, d.email, d.phone, false)];
      assert xs[..|s.individuals|] == s.individuals;
      Ok(s.(individuals := xs))
  }

  /** Overwrites the editable fields; the PESEL and the delete flag stay. */
  function UpdateIndividual(s: Store, id: int, u: IndividualUpdate): (r: Result<Store, LedgerError>)
    ensures !LiveIndividual(s.individuals, id) <==> r == Err(ClientNotFound)
    ensures r.Ok? ==>
              && r.value == s.(individuals := r.value.individuals)
              && |r.value.individuals| == |s.individuals|
              && (forall k :: 0 <= k < |s.individuals| && k != id ==> r.value.individuals[k] == s.individuals[k])
              && r.value.individuals[id]
                 == IndividualClient(u.firstName, u.lastName, s.individuals[id].pesel, u.address, u.email, u.phone, false)
  {
    if !LiveIndividual(s.individuals, id) then Err(ClientNotFound)
    else
      var c := s.individuals[id];
      Ok(s.(individuals := s.individuals[id := IndividualClient(u.firstName, u.lastName, c.pesel, u.address, u.email, u.phone, false)]))
  }

  /** Soft delete: the record stays (so its PESEL stays taken) but is
      flagged deleted and its personal data is overwritten. */
  function DeleteIndividual(s: Store, id: int): (r: Result<Store, LedgerError>)
    ensures !LiveIndividual(s.individuals, id) <==> r == Err(ClientNotFound)
    ensures r.Ok? ==>
              && r.value == s.(individuals := r.value.individuals)
              && |r.value.individuals| == |s.individuals|
              && (forall k :: 0 <= k < |s.individuals| && k != id ==> r.value.individuals[k] == s.individuals[k])
              && r.value.individuals[id].isDeleted
              && r.value.individuals[id]
                 == IndividualClient(Removed, Removed, s.individuals[id].pesel, Removed, Removed, Removed, true)
  {
    if !LiveIndividual(s.individuals, id) then Err(ClientNotFound)
    else
      var c := s.individuals[id];
      Ok(s.(individuals := s.individuals[id := IndividualClient(Removed, Removed, c.pesel, Removed, Removed, Removed, true)]))
  }

  /** The new company takes the next id of the company table; the
      individuals and the rest of the ledger are untouched. */
  function AddCompany(s: Store, d: CompanyData): (r: Result<Store, LedgerError>)
    ensures KrsInUse(s.companies, d.krs) <==> r == Err(KrsTaken)
    ensures r.Ok? ==>
              && r.value == s.(companies := r.value.companies)
              && |r.value.companies| == |s.companies| + 1
              && r.value.companies[..|s.companies|] == s.companies
              && r.value.companies[|s.companies|] == CompanyClient(d.companyName, d.krs, d.address, d.email, d.phone, false)
  {
    if KrsInUse(s.companies, d.krs) then Err(KrsTaken)
    else
      var xs := s.companies + [CompanyClient(d.companyName, d.krs, d.address, d.email, d.phone, false)];
      assert xs[..|s.companies|] == s.companies;
      Ok(s.(companies := xs))
  }

  /** Company update finds any company, without looking at the delete flag. */
  function UpdateCompany(s: Store, id: int, u: CompanyUpdate): (r: Result<Store, LedgerError>)
    ensures !IsCompany(s.companies, id) <==> r == Err(ClientNotFound)
    ensures r.Ok? ==>
              && r.value == s.(companies := r.value.companies)
              && |r.value.companies| == |s.companies|
              && (forall k :: 0 <= k < |s.companies| && k != id ==> r.value.companies[k] == s.companies[k])
              && r.value.companies[id]
                 == CompanyClient(u.companyName, s.companies[id].krs, u.address, u.email, u.phone, s.companies[id].isDeleted)
  {
    if !IsCompany(s.companies, id) then Err(ClientNotFound)
    else
      var c := s.companies[id];
      Ok(s.(companies := s.companies[id := CompanyClient(u.companyName, c.krs, u.address, u.email, u.phone, c.isDeleted)]))
  }

  /** `GetAllClientsAsync`: ids of the individuals that are not deleted, and
      of all companies. */
  datatype ClientsList = ClientsList(individuals: seq<int>, companies: seq<int>)

  /** The ids from `from` on of the rows that `keep` selects. The queries
      have no ordering clause; listing in id order is this model's choice. */
  function IdsFrom<T>(xs: seq<T>, keep: T -> bool, from: nat): (r: seq<int>)
    requires from <= |xs|
    ensures forall id :: id in r <==> from <= id < |xs| && keep(xs[id])
    ensures forall i, j :: 0 <= i < j < |r| ==> r[i] < r[j]
    decreases |xs| - from
  {
    if from == |xs| then []
    else
      var rest := IdsFrom(xs, keep, from + 1);
      AllAbove(rest, from);
      if keep(xs[from]) then [from] + rest else rest
  }

  lemma AllAbove(xs: seq<int>, bound: int)
    requires forall x :: x in xs ==> x > bound
    ensures forall k :: 0 <= k < |xs| ==> xs[k] > bound
  {
    forall k | 0 <= k < |xs|
      ensures xs[k] > bound
    {
      assert xs[k] in xs;
    }
  }

  function ListClients(s: Store): (r: ClientsList)
    ensures forall id :: id in r.individuals <==> 0 <= id < |s.individuals| && !s.individuals[id].isDeleted
    ensures forall id :: id in r.companies <==> 0 <= id < |s.companies|
  {
    ClientsList(IdsFrom(s.individuals, (c: IndividualClient) => !c.isDeleted, 0),
                IdsFrom(s.companies, (c: CompanyClient) => true, 0))
  }

  /** Deleting an individual hides it from the individual listing, makes any
      later update or delete of it fail with NotFound, and leaves the
      company listing (which may hold the same id) as it was. */
  lemma DeletedIndividualIsGone(s: Store, id: int, u: IndividualUpdate)
    requires DeleteIndividual(s, id).Ok?
    ensures var s' := DeleteIndividual(s, id).value;
            && id !in ListClients(s').individuals
            && ListClients(s').companies == ListClients(s).companies
            && DeleteIndividual(s', id) == Err(ClientNotFound)
            && UpdateIndividual(s', id, u) == Err(ClientNotFound)
  {
  }

  /** The seeded store holds individual 0 and company 0; deleting the
      individual still lists the company under the same id. */
  lemma SeededIdsOverlap()
    ensures var s := Store([IndividualClient("Jan", "Kowalski", "12345678901", "Sezamkowa", "jan@klient.com", "123456789", false)],
                           [CompanyClient("Test Corp", "KRS001", "Business Street", "contact@testcorp.com", "123456700", false)],
                           [], [], [], []);
            && DeleteIndividual(s, 0).Ok?
            && 0 !in ListClients(DeleteIndividual(s, 0).value).individuals
            && 0 in ListClients(DeleteIndividual(s, 0).value).companies
  {
  }

  /** Appending an individual whose PESEL is unused keeps PESELs unique. */
  lemma AppendKeepsPeselsUnique(xs: seq<IndividualClient>, c: IndividualClient)
    requires PeselsUnique(xs) && !PeselInUse(xs, c.pesel)
    ensures PeselsUnique(xs + [c])
  {
    var ys := xs + [c];
    assert forall k :: 0 <= k < |xs| ==> ys[k] == xs[k];
  }

  /** Appending a company whose KRS is unused keeps KRS numbers unique. */
  lemma AppendKeepsKrsUnique(xs: seq<CompanyClient>, c: CompanyClient)
    requires KrsUnique(xs) && !KrsInUse(xs, c.krs)
    ensures KrsUnique(xs + [c])
  {
    var ys := xs + [c];
    assert forall k :: 0 <= k < |xs| ==> ys[k] == xs[k];
  }

  /** Every client operation keeps PESEL and KRS numbers unique and leaves
      the rest of the ledger untouched, so the ledger invariant survives. */
  lemma ClientOperationsPreserveValid(s: Store, id: int, di: IndividualData, ui: IndividualUpdate, dc: CompanyData, uc: CompanyUpdate)
    requires Valid(s)
    ensures AddIndividual(s, di).Ok? ==> Valid(AddIndividual(s, di).value)
    ensures UpdateIndividual(s, id, ui).Ok? ==> Valid(UpdateIndividual(s, id, ui).value)
    ensures DeleteIndividual(s, id).Ok? ==> Valid(DeleteIndividual(s, id).value)
    ensures AddCompany(s, dc).Ok? ==> Valid(AddCompany(s, dc).value)
    ensures UpdateCompany(s, id, uc).Ok? ==> Valid(UpdateCompany(s, id, uc).value)
  {
    if AddIndividual(s, di).Ok? {
      var xs := AddIndividual(s, di).value.individuals;
      assert xs == s.individuals + [xs[|s.individuals|]];
      AppendKeepsPeselsUnique(s.individuals, xs[|s.individuals|]);
    }
    if AddCompany(s, dc).Ok? {
      var xs := AddCompany(s, dc).value.companies;
      assert xs == s.companies + [xs[|s.companies|]];
      AppendKeepsKrsUnique(s.companies, xs[|s.companies|]);
    }
  }
}
