/** The country-trips application: registering an existing client for a
    trip within its participant limit, removing a registration, and looking
    up the trips of a client from the rows of a join. Clients get their ids
    from their positions; trips are a read-only table searched by id. */
module CountryTrips {
  import opened Outcome
  import opened Subsequences

  datatype Trip = Trip(id: int, name: string, description: string, dateFrom: int, dateTo: int, maxPeople: int)
  datatype Client = Client(firstName: string, lastName: string, email: string, telephone: string, pesel: string)
  /** A `Client_Trip` row. */
  datatype Registration = Registration(clientId: int, tripId: int, registeredAt: int)
  /** A `Country_Trip` row, carrying the joined country's name. */
  datatype CountryTrip = CountryTrip(country: string, tripId: int)

  datatype CountryTripsDb = CountryTripsDb(
    trips: seq<Trip>, countryTrips: seq<CountryTrip>, clients: seq<Client>, registrations: seq<Registration>)

  datatype CountryTripsError = ClientNotFound | TripNotFound | ClientLimitExceeded | RegistrationNotFound | NoTrips

  predicate ClientExists(db: CountryTripsDb, id: int) {
    0 <= id < |db.clients|
  }

  predicate TripExists(db: CountryTripsDb, id: int) {
    exists k :: 0 <= k < |db.trips| && db.trips[k].id == id
  }

  /** The participant limit read for a trip: `MaxPeople` of its first row. */
  function MaxPeople(trips: seq<Trip>, id: int): (r: int)
    requires exists k :: 0 <= k < |trips| && trips[k].id == id
    ensures exists k :: 0 <= k < |trips| && trips[k].id == id && trips[k].maxPeople == r
  {
    if trips[0].id == id then trips[0].maxPeople
    else
      var k :| 0 <= k < |trips| && trips[k].id == id;
      assert trips[1..][k - 1] == trips[k];
      var r := MaxPeople(trips[1..], id);
      assert forall j :: 0 <= j < |trips| - 1 ==> trips[1..][j] == trips[j + 1];
      r
  }

  /** The positions of the registrations for a trip. */
  function RegistrationsFor(rs: seq<Registration>, tripId: int): set<nat> {
    set i: nat | i < |rs| && rs[i].tripId == tripId
  }

  /** The number of registrations for a trip, as `COUNT(1)` gives it. */
  function Participants(rs: seq<Registration>, tripId: int): (n: nat)
    ensures n == |RegistrationsFor(rs, tripId)|
    ensures n <= |rs|
  {
    if |rs| == 0 then
      assert RegistrationsFor(rs, tripId) == {};
      0
    else
      var init := rs[..|rs| - 1];
      var last := |rs| - 1;
      assert RegistrationsFor(rs, tripId)
             == RegistrationsFor(init, tripId) + (if rs[last].tripId == tripId then {last} else {});
      Participants(init, tripId) + (if rs[last].tripId == tripId then 1 else 0)
  }

  lemma ParticipantsAppend(rs: seq<Registration>, r: Registration, tripId: int)
    ensures Participants(rs + [r], tripId) == Participants(rs, tripId) + (if r.tripId == tripId then 1 else 0)
  {
    assert (rs + [r])[..|rs|] == rs;
  }

  /** `RegisterClientToTripAsync`. No check is made that the client is
      already registered for the trip. */
  function Register(db: CountryTripsDb, clientId: int, tripId: int, now: int): (r: Result<CountryTripsDb, CountryTripsError>)
    ensures !ClientExists(db, clientId) ==> r == Err(ClientNotFound)
    ensures ClientExists(db, clientId) && !TripExists(db, tripId) ==> r == Err(TripNotFound)
    ensures (&& ClientExists(db, clientId) && TripExists(db, tripId)
             && Participants(db.registrations, tripId) >= MaxPeople(db.trips, tripId)) ==> r == Err(ClientLimitExceeded)
    ensures (&& ClientExists(db, clientId) && TripExists(db, tripId)
             && Participants(db.registrations, tripId) < MaxPeople(db.trips, tripId)) ==> r.Ok?
    ensures r.Ok? ==>
              && TripExists(db, tripId)
              && Participants(r.value.registrations, tripId) <= MaxPeople(db.trips, tripId)
              && r.value == db.(registrations := db.registrations + [Registration(clientId, tripId, now)])
  {
    if !ClientExists(db, clientId) then Err(ClientNotFound)
    else if !TripExists(db, tripId) then Err(TripNotFound)
    else if Participants(db.registrations, tripId) >= MaxPeople(db.trips, tripId) then Err(ClientLimitExceeded)
    else
      ParticipantsAppend(db.registrations, Registration(clientId, tripId, now), tripId);
      Ok(db.(registrations := db.registrations + [Registration(clientId, tripId, now)]))
  }

  predicate Registered(db: CountryTripsDb, clientId: int, tripId: int) {
    exists k :: 0 <= k < |db.registrations| && db.registrations[k].clientId == clientId && db.registrations[k].tripId == tripId
  }

  /** The registrations that are not for the given pair, in order: every
      copy of a pair's registration goes, every other registration keeps
      each of its copies and its place. */
  function Without(rs: seq<Registration>, clientId: int, tripId: int): (r: seq<Registration>)
    ensures Subsequence(r, rs)
    ensures forall x :: multiset(r)[x] == if x.clientId == clientId && x.tripId == tripId then 0 else multiset(rs)[x]
    ensures forall x :: x in r <==> x in rs && !(x.clientId == clientId && x.tripId == tripId)
    ensures |r| <= |rs|
  {
    if |rs| == 0 then []
    else
      var init := rs[..|rs| - 1];
      var rest := Without(init, clientId, tripId);
      var last := rs[|rs| - 1];
      assert rs == init + [last];
      if last.clientId == clientId && last.tripId == tripId then rest
      else
        assert (rest + [last])[..|rest|] == rest;
        rest + [last]
  }

  /** `DeleteClientFromTripAsync`: every registration of the pair goes,
      every other registration stays. */
  function Unregister(db: CountryTripsDb, clientId: int, tripId: int): (r: Result<CountryTripsDb, CountryTripsError>)
    ensures r.Err? <==> !Registered(db, clientId, tripId)
    ensures r.Err? ==> r.error == RegistrationNotFound
    ensures r.Ok? ==> r.value == db.(registrations := Without(db.registrations, clientId, tripId))
    ensures r.Ok? ==>
              && r.value.trips == db.trips && r.value.countryTrips == db.countryTrips && r.value.clients == db.clients
              && !Registered(r.value, clientId, tripId)
              && |r.value.registrations| < |db.registrations|
              && forall x :: x in db.registrations && !(x.clientId == clientId && x.tripId == tripId) ==> x in r.value.registrations
  {
    if !Registered(db, clientId, tripId) then Err(RegistrationNotFound)
    else
      var rest := Without(db.registrations, clientId, tripId);
      var k :| 0 <= k < |db.registrations| && db.registrations[k].clientId == clientId && db.registrations[k].tripId == tripId;
      assert db.registrations[k] !in rest;
      WithoutShrinks(db.registrations, clientId, tripId, k);
      Ok(db.(registrations := rest))
  }

  lemma {:induction false} WithoutShrinks(rs: seq<Registration>, clientId: int, tripId: int, k: int)
    requires 0 <= k < |rs| && rs[k].clientId == clientId && rs[k].tripId == tripId
    ensures |Without(rs, clientId, tripId)| < |rs|
  {
    var init := rs[..|rs| - 1];
    if k == |rs| - 1 {
      assert |Without(init, clientId, tripId)| <= |init|;
    } else {
      assert init[k] == rs[k];
      WithoutShrinks(init, clientId, tripId, k);
    }
  }

  lemma {:induction false} ParticipantsWithout(rs: seq<Registration>, clientId: int, tripId: int, t: int)
    ensures Participants(Without(rs, clientId, tripId), t) <= Participants(rs, t)
  {
    if |rs| > 0 {
      var init := rs[..|rs| - 1];
      var last := rs[|rs| - 1];
      ParticipantsWithout(init, clientId, tripId, t);
      if !(last.clientId == clientId && last.tripId == tripId) {
        ParticipantsAppend(Without(init, clientId, tripId), last, t);
      }
    }
  }

  /** No trip has more registrations than its participant limit. */
  ghost predicate WithinLimits(db: CountryTripsDb) {
    forall k :: 0 <= k < |db.trips| ==> Participants(db.registrations, db.trips[k].id) <= MaxPeople(db.trips, db.trips[k].id)
  }

  /** Registration and unregistration keep every trip within its limit. */
  lemma OperationsKeepLimits(db: CountryTripsDb, clientId: int, tripId: int, now: int)
    requires WithinLimits(db)
    ensures Register(db, clientId, tripId, now).Ok? ==> WithinLimits(Register(db, clientId, tripId, now).value)
    ensures Unregister(db, clientId, tripId).Ok? ==> WithinLimits(Unregister(db, clientId, tripId).value)
  {
    var reg := Registration(clientId, tripId, now);
    forall t | true
      ensures Participants(db.registrations + [reg], t) == Participants(db.registrations, t) + (if tripId == t then 1 else 0)
      ensures Participants(Without(db.registrations, clientId, tripId), t) <= Participants(db.registrations, t)
    {
      ParticipantsAppend(db.registrations, reg, t);
      ParticipantsWithout(db.registrations, clientId, tripId, t);
    }
  }

  /** One row of the client-trips query: the trip joined with one of its
      countries, or with none when it has no country. */
  datatype TripRow = TripRow(tripId: int, name: string, description: string, dateFrom: int, dateTo: int, maxPeople: int, country: Option<string>)

  /** The `LEFT JOIN` of a trip with its countries. */
  function CountryRows(t: Trip, cts: seq<CountryTrip>): (r: seq<TripRow>)
    ensures |r| > 0
    ensures forall k :: 0 <= k < |r| ==> r[k].tripId == t.id
  {
    var cs := CountriesOf(cts, t.id);
    if |cs| == 0 then [TripRow(t.id, t.name, t.description, t.dateFrom, t.dateTo, t.maxPeople, None)]
    else seq(|cs|, k requires 0 <= k < |cs| => TripRow(t.id, t.name, t.description, t.dateFrom, t.dateTo, t.maxPeople, Some(cs[k])))
  }

  function CountriesOf(cts: seq<CountryTrip>, tripId: int): seq<string> {
    if |cts| == 0 then []
    else (if cts[0].tripId == tripId then [cts[0].country] else []) + CountriesOf(cts[1..], tripId)
  }

  /** The `INNER JOIN` of one registration with the trips. */
  function TripRows(trips: seq<Trip>, cts: seq<CountryTrip>, tripId: int): (r: seq<TripRow>)
    ensures |r| > 0 <==> exists k :: 0 <= k < |trips| && trips[k].id == tripId
    ensures forall k :: 0 <= k < |r| ==> r[k].tripId == tripId
  {
    if |trips| == 0 then []
    else
      var rest := TripRows(trips[1..], cts, tripId);
      assert forall k :: 1 <= k < |trips| ==> trips[k] == trips[1..][k - 1];
      (if trips[0].id == tripId then CountryRows(trips[0], cts) else []) + rest
  }

  /** The rows the client-trips query yields for a client, one group of rows
      per registration in table order. */
  function ClientRows(db: CountryTripsDb, rs: seq<Registration>, clientId: int): (r: seq<TripRow>)
    ensures |r| > 0 <==> exists k :: 0 <= k < |rs| && rs[k].clientId == clientId && TripExists(db, rs[k].tripId)
    ensures forall k :: 0 <= k < |r| ==> exists j :: 0 <= j < |rs| && rs[j].clientId == clientId && rs[j].tripId == r[k].tripId
  {
    if |rs| == 0 then []
    else
      var head := if rs[0].clientId == clientId then TripRows(db.trips, db.countryTrips, rs[0].tripId) else [];
      var rest := ClientRows(db, rs[1..], clientId);
      assert forall k :: 1 <= k < |rs| ==> rs[k] == rs[1..][k - 1];
      var r := head + rest;
      assert forall k :: |head| <= k < |r| ==> r[k] == rest[k - |head|];
      r
  }

  /** `GetClientsTripsByIdAsync` as written: the first row is read by the
      existence check and never reaches the result. */
  function ClientTripsAsWritten(rows: seq<TripRow>): (r: Result<seq<TripRow>, CountryTripsError>)
    ensures |rows| == 0 ==> r == Err(ClientNotFound)
    ensures |rows| == 1 ==> r == Err(NoTrips)
    ensures r.Ok? <==> |rows| >= 2
    ensures r.Ok? ==> |r.value| == |rows| - 1 && r.value == rows[1..]
  {
    if |rows| == 0 then Err(ClientNotFound)
    else if |rows| == 1 then Err(NoTrips)
    else Ok(rows[1..])
  }

  /** A client with one registration for a trip with no country: the query
      yields one row, yet the lookup reports that the client has no trips. */
  lemma ClientTripsDropsOnlyTrip()
    ensures var db := CountryTripsDb([Trip(1, "Alps", "", 10, 20, 5)], [], [Client("A", "B", "", "", "1")], [Registration(0, 1, 0)]);
            && |ClientRows(db, db.registrations, 0)| == 1
            && ClientTripsAsWritten(ClientRows(db, db.registrations, 0)) == Err(NoTrips)
  {
    var db := CountryTripsDb([Trip(1, "Alps", "", 10, 20, 5)], [], [Client("A", "B", "", "", "1")], [Registration(0, 1, 0)]);
    assert CountriesOf(db.countryTrips, 1) == [];
    assert TripRows(db.trips[1..], db.countryTrips, 1) == [];
    assert ClientRows(db, db.registrations[1..], 0) == [];
  }

  /** The lookup as evidently intended: every row is reported, and only a
      client without rows is not found. */
  function ClientTrips(rows: seq<TripRow>): (r: Result<seq<TripRow>, CountryTripsError>)
    ensures r.Err? <==> |rows| == 0
    ensures r.Ok? ==> r.value == rows
  {
    if |rows| == 0 then Err(ClientNotFound) else Ok(rows)
  }

  /** With the corrected lookup a client's trips are found exactly when one
      of their registrations names an existing trip, and each reported row
      belongs to one of those registrations. */
  lemma ClientTripsFoundIffRegistered(db: CountryTripsDb, clientId: int)
    ensures var r := ClientTrips(ClientRows(db, db.registrations, clientId));
            && (r.Ok? <==> exists k :: 0 <= k < |db.registrations| && db.registrations[k].clientId == clientId
                                         && TripExists(db, db.registrations[k].tripId))
            && (r.Ok? ==> forall row :: row in r.value ==> Registered(db, clientId, row.tripId))
  {
  }

  /** `CreateClientAsync`: the new client's id. */
  function CreateClient(db: CountryTripsDb, c: Client): (r: (CountryTripsDb, int))
    ensures ClientExists(r.0, r.1) && !ClientExists(db, r.1) && r.0.clients[r.1] == c
    ensures forall id :: ClientExists(db, id) ==> ClientExists(r.0, id) && r.0.clients[id] == db.clients[id]
  {
    (db.(clients := db.clients + [c]), |db.clients|)
  }
}
