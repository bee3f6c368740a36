/** The trips application: paged trip listing, deletion of clients without
    trip assignments, and registration of a new client for a future trip.
    Trips are a read-only table searched by id; clients get their ids from
    their positions and a deleted client leaves an empty slot, so ids are
    never reused. `now` is the clock reading of the request. */
module TripsService {
  import opened Outcome
  import Sorting

  const DefaultPageSize: int := 10

  datatype Trip = Trip(id: int, name: string, description: string, dateFrom: int, dateTo: int, maxPeople: int)
  datatype Client = Client(firstName: string, lastName: string, email: string, telephone: string, pesel: string)
  datatype ClientTrip = ClientTrip(clientId: int, tripId: int, registeredAt: int, paymentDate: Option<int>)

  datatype TripsDb = TripsDb(trips: seq<Trip>, clients: seq<Option<Client>>, clientTrips: seq<ClientTrip>)

  datatype TripsError = ClientNotFound | ClientHasTrips | ClientExists | TripNotFound | TripAlreadyStarted

  datatype TripsPage = TripsPage(pageNum: int, pageSize: int, allPages: int, trips: seq<Trip>)

  /** `OrderByDescending(t => t.DateFrom)` as an ascending sort on the negated date. */
  function NegatedDateFrom(t: Trip): int {
    -t.dateFrom
  }

  function NewestFirst(ts: seq<Trip>): (r: seq<Trip>)
    ensures |r| == |ts|
    ensures multiset(r) == multiset(ts)
    ensures forall i, j :: 0 <= i < j < |r| ==> r[i].dateFrom >= r[j].dateFrom
  {
    var r := Sorting.SortBy(ts, NegatedDateFrom);
    assert forall i, j :: 0 <= i < j < |r| ==> NegatedDateFrom(r[i]) <= NegatedDateFrom(r[j]);
    r
  }

  /** `(int)Math.Ceiling(total / (double)pageSize)`. */
  function PageCount(total: nat, pageSize: int): (n: nat)
    requires pageSize >= 1
    ensures n * pageSize >= total
    ensures n == 0 || (n - 1) * pageSize < total
  {
    (total + pageSize - 1) / pageSize
  }

  /** The position of the first item of a page: `(page - 1) * pageSize`. */
  function PageStart(page: int, pageSize: int): (r: int)
    requires page >= 1 && pageSize >= 1
    ensures 0 <= r
  {
    MulMonotone(0, page - 1, pageSize);
    (page - 1) * pageSize
  }

  /** The at most `pageSize` items starting at the page's first position;
      empty past the end. */
  function Slice<T>(xs: seq<T>, page: int, pageSize: int): (r: seq<T>)
    requires page >= 1 && pageSize >= 1
    ensures |r| <= pageSize
    ensures PageStart(page, pageSize) >= |xs| ==> r == []
    ensures forall k :: 0 <= k < |r| ==> PageStart(page, pageSize) + k < |xs| && r[k] == xs[PageStart(page, pageSize) + k]
  {
    var skip := PageStart(page, pageSize);
    if skip >= |xs| then []
    else if skip + pageSize >= |xs| then xs[skip..]
    else xs[skip..skip + pageSize]
  }

  /** `GetTripsAsync`: a page below 1 becomes 1, a page size below 1
      becomes 10, and the response echoes the normalised values. */
  function GetTrips(db: TripsDb, page: int, pageSize: int): (r: TripsPage)
    ensures r.pageNum == (if page < 1 then 1 else page)
    ensures r.pageSize == (if pageSize < 1 then DefaultPageSize else pageSize)
    ensures r.allPages == PageCount(|db.trips|, r.pageSize)
    ensures |r.trips| <= r.pageSize
    ensures r.trips == Slice(NewestFirst(db.trips), r.pageNum, r.pageSize)
  {
    var p := if page < 1 then 1 else page;
    var size := if pageSize < 1 then DefaultPageSize else pageSize;
    TripsPage(p, size, PageCount(|db.trips|, size), Slice(NewestFirst(db.trips), p, size))
  }

  lemma MulMonotone(a: int, b: int, c: int)
    requires 0 <= a <= b && c >= 1
    ensures a * c <= b * c
  {
  }

  /** The trip at position `PageStart(page, pageSize) + m` of the date
      order is item `m` of page `page`, and that page is within `allPages`. */
  lemma EveryTripOnItsPage(db: TripsDb, page: int, pageSize: int, m: int)
    requires page >= 1 && 0 <= m < pageSize
    requires PageStart(page, pageSize) + m < |db.trips|
    ensures var r := GetTrips(db, page, pageSize);
            && r.pageNum == page <= r.allPages
            && m < |r.trips| && r.trips[m] == NewestFirst(db.trips)[PageStart(page, pageSize) + m]
  {
    var ordered := NewestFirst(db.trips);
    var r := GetTrips(db, page, pageSize);
    assert r.pageNum == page && r.pageSize == pageSize;
    assert r.trips == Slice(ordered, page, pageSize);
    PageWithinCount(|db.trips|, page, pageSize);
    SliceCovers(ordered, page, pageSize, m);
  }

  /** A page that starts before the end is counted in `allPages`. */
  lemma PageWithinCount(total: nat, page: int, pageSize: int)
    requires page >= 1 && pageSize >= 1 && PageStart(page, pageSize) < total
    ensures page <= PageCount(total, pageSize)
  {
    var n := PageCount(total, pageSize);
    if page > n {
      MulMonotone(n, page - 1, pageSize);
    }
  }

  lemma SliceCovers<T>(xs: seq<T>, page: int, pageSize: int, m: int)
    requires page >= 1 && 0 <= m < pageSize
    requires PageStart(page, pageSize) + m < |xs|
    ensures m < |Slice(xs, page, pageSize)|
  {
  }

  /** The client exists (has not been removed). */
  predicate ClientPresent(db: TripsDb, id: int) {
    0 <= id < |db.clients| && db.clients[id].Some?
  }

  predicate HasTrips(db: TripsDb, id: int) {
    exists k :: 0 <= k < |db.clientTrips| && db.clientTrips[k].clientId == id
  }

  /** `DeleteClientByIdAsync`. */
  function DeleteClient(db: TripsDb, id: int): (r: Result<TripsDb, TripsError>)
    ensures !ClientPresent(db, id) ==> r == Err(ClientNotFound)
    ensures ClientPresent(db, id) && HasTrips(db, id) ==> r == Err(ClientHasTrips)
    ensures ClientPresent(db, id) && !HasTrips(db, id) ==> r.Ok?
    ensures r.Ok? ==>
              && r.value.trips == db.trips && r.value.clientTrips == db.clientTrips
              && |r.value.clients| == |db.clients|
              && !ClientPresent(r.value, id)
              && forall k :: 0 <= k < |db.clients| && k != id ==> r.value.clients[k] == db.clients[k]
  {
    if !ClientPresent(db, id) then Err(ClientNotFound)
    else if HasTrips(db, id) then Err(ClientHasTrips)
    else Ok(db.(clients := db.clients[id := None]))
  }

  predicate PeselStored(db: TripsDb, pesel: string) {
    exists k :: 0 <= k < |db.clients| && db.clients[k].Some? && db.clients[k].value.pesel == pesel
  }

  function FindTrip(trips: seq<Trip>, id: int): (r: Option<Trip>)
    ensures r.Some? ==> r.value in trips && r.value.id == id
    ensures r.None? <==> forall k :: 0 <= k < |trips| ==> trips[k].id != id
  {
    if |trips| == 0 then None
    else if trips[0].id == id then Some(trips[0])
    else
      assert forall k :: 1 <= k < |trips| ==> trips[k] == trips[1..][k - 1];
      FindTrip(trips[1..], id)
  }

  datatype Assignment = Assignment(client: Client, tripId: int, paymentDate: Option<int>)

  /** `AssignClientToTripAsync`: the PESEL must be new, the trip must exist
      and must start after `now`; then one client and one link are added. */
  function AssignClientToTrip(db: TripsDb, a: Assignment, now: int): (r: Result<TripsDb, TripsError>)
    ensures PeselStored(db, a.client.pesel) ==> r == Err(ClientExists)
    ensures !PeselStored(db, a.client.pesel) && FindTrip(db.trips, a.tripId).None? ==> r == Err(TripNotFound)
    ensures (&& !PeselStored(db, a.client.pesel) && FindTrip(db.trips, a.tripId).Some?
             && FindTrip(db.trips, a.tripId).value.dateFrom <= now) ==> r == Err(TripAlreadyStarted)
    ensures (&& !PeselStored(db, a.client.pesel) && FindTrip(db.trips, a.tripId).Some?
             && FindTrip(db.trips, a.tripId).value.dateFrom > now) ==> r.Ok?
    ensures r.Ok? ==> exists t :: t in db.trips && t.id == a.tripId && t.dateFrom > now
    ensures r.Ok? ==>
              && r.value.trips == db.trips
              && r.value.clients == db.clients + [Some(a.client)]
              && r.value.clientTrips == db.clientTrips + [ClientTrip(|db.clients|, a.tripId, now, a.paymentDate)]
  {
    if PeselStored(db, a.client.pesel) then Err(ClientExists)
    else match FindTrip(db.trips, a.tripId)
      case None => Err(TripNotFound)
      case Some(t) =>
        if t.dateFrom <= now then Err(TripAlreadyStarted)
        else Ok(TripsDb(db.trips, db.clients + [Some(a.client)], db.clientTrips + [ClientTrip(|db.clients|, a.tripId, now, a.paymentDate)]))
  }

  /** Every link names a present client. */
  ghost predicate LinksReferenceClients(db: TripsDb) {
    forall k :: 0 <= k < |db.clientTrips| ==> ClientPresent(db, db.clientTrips[k].clientId)
  }

  /** Deleting only clients without links and adding links only for new
      clients keeps every link pointing at a present client. */
  lemma OperationsKeepLinksValid(db: TripsDb, id: int, a: Assignment, now: int)
    requires LinksReferenceClients(db)
    ensures DeleteClient(db, id).Ok? ==> LinksReferenceClients(DeleteClient(db, id).value)
    ensures AssignClientToTrip(db, a, now).Ok? ==> LinksReferenceClients(AssignClientToTrip(db, a, now).value)
  {
    if AssignClientToTrip(db, a, now).Ok? {
      var db' := AssignClientToTrip(db, a, now).value;
      assert forall k :: 0 <= k < |db.clients| ==> db'.clients[k] == db.clients[k];
    }
  }
}
