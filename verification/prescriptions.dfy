/** The prescription application: issuing a prescription for a (possibly
    new) patient after validating the request, and listing one patient's
    prescriptions. Doctors and medicaments are read-only tables given by
    their ids; patients and prescriptions get their ids from their
    positions. */
module Prescriptions {
  import opened Outcome
  import Sorting

  const MaxMedicaments: int := 10

  datatype Patient = Patient(firstName: string, lastName: string, birthdate: int)
  datatype Prescription = Prescription(patientId: int, doctorId: int, date: int, dueDate: int)
  /** A `PrescriptionMedicament` row; its key is (medicament, prescription). */
  datatype Item = Item(prescriptionId: int, medicamentId: int, dose: int, details: string)

  datatype ClinicDb = ClinicDb(
    doctors: set<int>,
    medicaments: set<int>,
    patients: seq<Patient>,
    prescriptions: seq<Prescription>,
    items: seq<Item>)

  datatype PatientInput = PatientInput(idPatient: Option<int>, firstName: string, lastName: string, birthdate: int)
  datatype ItemInput = ItemInput(medicamentId: int, dose: int, description: string)
  datatype PrescriptionRequest = PrescriptionRequest(
    patient: PatientInput, medicaments: seq<ItemInput>, date: int, dueDate: int, doctorId: int)

  datatype PrescriptionError =
    | MedicamentsNotFound(missing: set<int>)
    | NoMedicaments
    | TooManyMedicaments
    | DueBeforeDate
    | DoctorNotFound
    | PatientNotFound
    /** Two entries for the same medicament collide on the item key when
        stored, and the transaction is rolled back. */
    | DuplicateItemKey

  /** The distinct requested medicament ids that the store does not hold. */
  function MissingMedicaments(db: ClinicDb, ms: seq<ItemInput>): (r: set<int>)
    ensures forall id :: id in r <==> id !in db.medicaments && exists k :: 0 <= k < |ms| && ms[k].medicamentId == id
  {
    set k | 0 <= k < |ms| && ms[k].medicamentId !in db.medicaments :: ms[k].medicamentId
  }

  predicate RepeatsMedicament(ms: seq<ItemInput>) {
    exists i, j :: 0 <= i < j < |ms| && ms[i].medicamentId == ms[j].medicamentId
  }

  /** The patient a request refers to: the one with the given id if there is
      one, otherwise none (and a new patient is created). */
  function ExistingPatient(db: ClinicDb, p: PatientInput): (r: Option<int>)
    ensures r.Some? <==> p.idPatient.Some? && 0 <= p.idPatient.value < |db.patients|
    ensures r.Some? ==> r.value == p.idPatient.value
  {
    if p.idPatient.Some? && 0 <= p.idPatient.value < |db.patients| then Some(p.idPatient.value) else None
  }

  /** The rows stored for the entries of a request, in request order. */
  function ItemsFor(prescriptionId: int, ms: seq<ItemInput>): (r: seq<Item>)
    ensures |r| == |ms|
    ensures forall k :: 0 <= k < |ms| ==>
              && r[k].prescriptionId == prescriptionId
              && r[k].medicamentId == ms[k].medicamentId
              && r[k].dose == ms[k].dose
              && r[k].details == ms[k].description
  {
    if |ms| == 0 then []
    else [Item(prescriptionId, ms[0].medicamentId, ms[0].dose, ms[0].description)] + ItemsFor(prescriptionId, ms[1..])
  }

  /** `CreatePrescriptionAsync`: on success the new store and the new
      prescription's id. */
  function CreatePrescription(db: ClinicDb, req: PrescriptionRequest): (r: Result<(ClinicDb, int), PrescriptionError>)
    ensures MissingMedicaments(db, req.medicaments) != {} ==> r == Err(MedicamentsNotFound(MissingMedicaments(db, req.medicaments)))
    ensures MissingMedicaments(db, req.medicaments) == {} && |req.medicaments| == 0 ==> r == Err(NoMedicaments)
    ensures MissingMedicaments(db, req.medicaments) == {} && |req.medicaments| > MaxMedicaments ==> r == Err(TooManyMedicaments)
    ensures (&& MissingMedicaments(db, req.medicaments) == {} && 0 < |req.medicaments| <= MaxMedicaments
             && req.dueDate < req.date) ==> r == Err(DueBeforeDate)
    ensures (&& MissingMedicaments(db, req.medicaments) == {} && 0 < |req.medicaments| <= MaxMedicaments
             && req.dueDate >= req.date && req.doctorId !in db.doctors) ==> r == Err(DoctorNotFound)
    ensures (&& MissingMedicaments(db, req.medicaments) == {} && 0 < |req.medicaments| <= MaxMedicaments
             && req.dueDate >= req.date && req.doctorId in db.doctors && RepeatsMedicament(req.medicaments))
            ==> r == Err(DuplicateItemKey)
    ensures r.Ok? <==>
              && MissingMedicaments(db, req.medicaments) == {} && 0 < |req.medicaments| <= MaxMedicaments
              && req.dueDate >= req.date && req.doctorId in db.doctors && !RepeatsMedicament(req.medicaments)
    ensures r.Ok? ==>
              var (db', id) := r.value;
              var pid := if ExistingPatient(db, req.patient).Some? then req.patient.idPatient.value else |db.patients|;
              && db'.doctors == db.doctors && db'.medicaments == db.medicaments
              && db'.patients == (if ExistingPatient(db, req.patient).Some? then db.patients
                                  else db.patients + [Patient(req.patient.firstName, req.patient.lastName, req.patient.birthdate)])
              && id == |db.prescriptions|
              && db'.prescriptions == db.prescriptions + [Prescription(pid, req.doctorId, req.date, req.dueDate)]
              && db'.items == db.items + ItemsFor(id, req.medicaments)
  {
    var missing := MissingMedicaments(db, req.medicaments);
    if missing != {} then Err(MedicamentsNotFound(missing))
    else if |req.medicaments| == 0 then Err(NoMedicaments)
    else if |req.medicaments| > MaxMedicaments then Err(TooManyMedicaments)
    else if req.dueDate < req.date then Err(DueBeforeDate)
    else if req.doctorId !in db.doctors then Err(DoctorNotFound)
    else if RepeatsMedicament(req.medicaments) then Err(DuplicateItemKey)
    else
      var existing := ExistingPatient(db, req.patient);
      var patients := if existing.Some? then db.patients
                      else db.patients + [Patient(req.patient.firstName, req.patient.lastName, req.patient.birthdate)];
      var pid := if existing.Some? then existing.value else |db.patients|;
      var id := |db.prescriptions|;
      Ok((ClinicDb(db.doctors, db.medicaments, patients,
                   db.prescriptions + [Prescription(pid, req.doctorId, req.date, req.dueDate)],
                   db.items + ItemsFor(id, req.medicaments)), id))
  }

  /** Every prescription names a stored patient and doctor, and every item
      a stored prescription and medicament. */
  ghost predicate Valid(db: ClinicDb) {
    && (forall k :: 0 <= k < |db.prescriptions| ==>
          0 <= db.prescriptions[k].patientId < |db.patients| && db.prescriptions[k].doctorId in db.doctors)
    && (forall k :: 0 <= k < |db.items| ==>
          0 <= db.items[k].prescriptionId < |db.prescriptions| && db.items[k].medicamentId in db.medicaments)
  }

  lemma CreatePreservesValid(db: ClinicDb, req: PrescriptionRequest)
    requires Valid(db)
    ensures CreatePrescription(db, req).Ok? ==> Valid(CreatePrescription(db, req).value.0)
  {
    var r := CreatePrescription(db, req);
    if r.Ok? {
      var (db', id) := r.value;
      var added := ItemsFor(id, req.medicaments);
      forall k | 0 <= k < |db'.items|
        ensures 0 <= db'.items[k].prescriptionId < |db'.prescriptions| && db'.items[k].medicamentId in db'.medicaments
      {
        if k >= |db.items| {
          var j := k - |db.items|;
          assert db'.items[k] == added[j];
          assert req.medicaments[j].medicamentId !in MissingMedicaments(db, req.medicaments);
        }
      }
    }
  }

  /** One prescription as `GetPatientDetailsAsync` reports it. */
  datatype PrescriptionView = PrescriptionView(id: int, date: int, dueDate: int, doctorId: int, medicaments: seq<Item>)

  function DueDateOf(v: PrescriptionView): int {
    v.dueDate
  }

  function ItemsOf(items: seq<Item>, prescriptionId: int): (r: seq<Item>)
    ensures forall x :: x in r <==> x in items && x.prescriptionId == prescriptionId
  {
    if |items| == 0 then []
    else (if items[0].prescriptionId == prescriptionId then [items[0]] else []) + ItemsOf(items[1..], prescriptionId)
  }

  function View(db: ClinicDb, id: int): PrescriptionView
    requires 0 <= id < |db.prescriptions|
  {
    var p := db.prescriptions[id];
    PrescriptionView(id, p.date, p.dueDate, p.doctorId, ItemsOf(db.items, id))
  }

  /** The views of the patient's prescriptions numbered `from` or more, in id order. */
  function PatientViewsFrom(db: ClinicDb, patientId: int, from: nat): (r: seq<PrescriptionView>)
    requires from <= |db.prescriptions|
    ensures forall v :: v in r ==> from <= v.id < |db.prescriptions| && db.prescriptions[v.id].patientId == patientId && v == View(db, v.id)
    ensures forall id :: from <= id < |db.prescriptions| && db.prescriptions[id].patientId == patientId ==> View(db, id) in r
    ensures forall i, j :: 0 <= i < j < |r| ==> r[i].id < r[j].id
    decreases |db.prescriptions| - from
  {
    if from == |db.prescriptions| then []
    else
      var rest := PatientViewsFrom(db, patientId, from + 1);
      if db.prescriptions[from].patientId == patientId then
        assert forall j :: 0 <= j < |rest| ==> rest[j] in rest;
        [View(db, from)] + rest
      else rest
  }

  function PatientViews(db: ClinicDb, patientId: int): (r: seq<PrescriptionView>)
    ensures forall v :: v in r ==> 0 <= v.id < |db.prescriptions| && db.prescriptions[v.id].patientId == patientId && v == View(db, v.id)
    ensures forall id :: 0 <= id < |db.prescriptions| && db.prescriptions[id].patientId == patientId ==> View(db, id) in r
    ensures forall i, j :: 0 <= i < j < |r| ==> r[i].id < r[j].id
  {
    PatientViewsFrom(db, patientId, 0)
  }

  datatype PatientDetails = PatientDetails(id: int, patient: Patient, prescriptions: seq<PrescriptionView>)

  /** `GetPatientDetailsAsync`: the patient with all of their prescriptions,
      earliest due date first. */
  function GetPatientDetails(db: ClinicDb, id: int): (r: Result<PatientDetails, PrescriptionError>)
    ensures r.Err? <==> !(0 <= id < |db.patients|)
    ensures r.Err? ==> r.error == PatientNotFound
    ensures r.Ok? ==>
              && r.value.id == id && r.value.patient == db.patients[id]
              && multiset(r.value.prescriptions) == multiset(PatientViews(db, id))
              && forall i, j :: 0 <= i < j < |r.value.prescriptions| ==>
                   r.value.prescriptions[i].dueDate <= r.value.prescriptions[j].dueDate
  {
    if !(0 <= id < |db.patients|) then Err(PatientNotFound)
    else
      var vs := Sorting.SortBy(PatientViews(db, id), DueDateOf);
      Ok(PatientDetails(id, db.patients[id], vs))
  }

  /** After a successful creation the patient's details list the new
      prescription, with one item per requested medicament. */
  lemma CreatedPrescriptionIsListed(db: ClinicDb, req: PrescriptionRequest)
    requires Valid(db)
    requires CreatePrescription(db, req).Ok?
    ensures var (db', id) := CreatePrescription(db, req).value;
            var pid := db'.prescriptions[id].patientId;
            && GetPatientDetails(db', pid).Ok?
            && exists v :: v in GetPatientDetails(db', pid).value.prescriptions && v.id == id
                 && v.dueDate == req.dueDate && |v.medicaments| == |req.medicaments|
  {
    var (db', id) := CreatePrescription(db, req).value;
    var pid := db'.prescriptions[id].patientId;
    assert 0 <= pid < |db'.patients|;
    var v := View(db', id);
    assert v in PatientViews(db', pid);
    var details := GetPatientDetails(db', pid).value.prescriptions;
    assert v in multiset(details);
    ItemsOfAppended(db.items, id, req.medicaments);
  }

  /** The items of a prescription whose rows are all appended at the end are
      exactly those rows. */
  lemma {:induction false} ItemsOfAppended(items: seq<Item>, id: int, ms: seq<ItemInput>)
    requires forall k :: 0 <= k < |items| ==> items[k].prescriptionId < id
    ensures ItemsOf(items + ItemsFor(id, ms), id) == ItemsFor(id, ms)
    decreases |items| + |ms|
  {
    if |items| == 0 {
      assert items + ItemsFor(id, ms) == ItemsFor(id, ms);
      ItemsOfOwn(id, ms);
    } else {
      assert (items + ItemsFor(id, ms))[1..] == items[1..] + ItemsFor(id, ms);
      ItemsOfAppended(items[1..], id, ms);
    }
  }

  lemma {:induction false} ItemsOfOwn(id: int, ms: seq<ItemInput>)
    ensures ItemsOf(ItemsFor(id, ms), id) == ItemsFor(id, ms)
  {
    if |ms| > 0 {
      ItemsOfOwn(id, ms[1..]);
    }
  }
}
