/**
 * One operation of the app carried out against the backend: the request
 * the app builds, the endpoint that serves it, and the completion handler
 * that receives the answer. The transport is taken to deliver every
 * request and answer; a backend error reaches the app as a non-200 status,
 * or as a body that does not decode as the expected record.
 */
module RoundTrip {
  import opened Records
  import opened ClientLists
  import Client
  import Server

  /** What a decoding handler receives for an endpoint's answer. */
  function AsDecoded<T>(r: Server.Result<T>): (d: Client.Decoded<T>)
    ensures d.Success? <==> r.Ok?
    ensures d.Success? ==> d.value == r.value
  {
    if r.Ok? then Client.Success(r.value) else Client.Failure
  }

  /** What a DELETE handler receives for an endpoint's answer. */
  function AsResponse<T>(r: Server.Result<T>): (response: Client.Response)
    ensures response.Status?
    ensures response == Client.Status(200) <==> r.Ok?
  {
    if r.Ok? then Client.Status(200) else Client.Status(Server.StatusCode(r.error))
  }

  /** Every patient the app lists is a stored patient. */
  ghost predicate Known(ps: seq<Patient>, stored: map<int, Patient>) {
    forall p :: p in ps ==> p.id.Some? && p.id.value in stored
  }

  /** fetchPatients with the default paging: the app lists stored patients,
      each once, and at most 100 of them. */
  method FetchPatients(app: Client.NetworkManager, db: Server.Database)
    requires db.Valid()
    modifies app
    ensures Known(app.patients, db.patients) && UniqueIds(app.patients)
    ensures forall p :: p in app.patients ==> db.patients[p.id.value] == p
    ensures |app.patients| <= 100
    ensures |db.patients| <= 100 ==> forall k :: k in db.patients ==> db.patients[k] in app.patients
    ensures app.diagnoses == old(app.diagnoses)
  {
    var r := db.ReadPatients(0, 100);
    app.FetchPatients(AsDecoded(r));
  }

  /** createPatient: the app ends up with one more patient, last, carrying
      a fresh id and the given fields, stored under that id. */
  method CreatePatient(app: Client.NetworkManager, db: Server.Database, name: string, age: Option<int>, ssn: string)
    requires db.Valid()
    modifies app, db
    ensures db.Valid()
    ensures |app.patients| == |old(app.patients)| + 1
    ensures app.patients[..|old(app.patients)|] == old(app.patients)
    ensures var p := app.patients[|old(app.patients)|];
      && p.id.Some? && p.id.value !in old(db.patients)
      && db.patients == old(db.patients)[p.id.value := p]
      && p.name == name && p.age == age && p.ssn == ssn
    ensures Known(old(app.patients), old(db.patients)) ==> Known(app.patients, db.patients)
    ensures Known(old(app.patients), old(db.patients)) && UniqueIds(old(app.patients)) ==> UniqueIds(app.patients)
    ensures app.diagnoses == old(app.diagnoses) && db.diagnoses == old(db.diagnoses)
  {
    ghost var before := app.patients;
    var r := db.CreatePatient(Client.NewPatient(name, age, ssn));
    app.CreatePatient(AsDecoded(r));
    if Known(before, old(db.patients)) && UniqueIds(before) {
      AppendKeepsUniqueIds(before, r.value);
    }
  }

  /** updatePatient: the request needs the patient's id. A stored patient
      gets the new name, age and ssn, and the app's entry with that id shows
      the stored row. */
  method UpdatePatient(app: Client.NetworkManager, db: Server.Database, patient: Patient)
    requires patient.id.Some?
    requires db.Valid()
    modifies app, db
    ensures db.Valid()
    ensures |app.patients| == |old(app.patients)|
    ensures patient.id.value !in old(db.patients) ==> app.patients == old(app.patients) && db.patients == old(db.patients)
    ensures patient.id.value in old(db.patients) ==> patient.id.value in db.patients
    ensures patient.id.value in old(db.patients) ==>
      var row := db.patients[patient.id.value];
      && row.id == patient.id && row.name == patient.name && row.age == patient.age && row.ssn == patient.ssn
      && db.patients == old(db.patients)[patient.id.value := row]
      && (IndexOfId(old(app.patients), patient.id).Some? ==> app.patients[IndexOfId(old(app.patients), patient.id).value] == row)
    ensures var found := IndexOfId(old(app.patients), patient.id);
      forall j :: 0 <= j < |app.patients| && (found.None? || j != found.value) ==> app.patients[j] == old(app.patients)[j]
    ensures Known(old(app.patients), old(db.patients)) ==> Known(app.patients, db.patients)
    ensures UniqueIds(old(app.patients)) ==> UniqueIds(app.patients)
    ensures app.diagnoses == old(app.diagnoses) && db.diagnoses == old(db.diagnoses)
  {
    var r := db.UpdatePatient(patient.id.value, patient);
    app.UpdatePatient(AsDecoded(r));
    if r.Ok? && IndexOfId(old(app.patients), r.value.id).Some? && UniqueIds(old(app.patients)) {
      ReplaceKeepsUniqueIds(old(app.patients), r.value);
    }
  }

  /** deletePatient: a stored patient is deleted with its diagnoses, and the
      app drops its first entry with that id, keeping the others in order;
      when ids are unique the patient is no longer listed at all. The app's
      diagnosis list is not touched and keeps that patient's entries. */
  method DeletePatient(app: Client.NetworkManager, db: Server.Database, patientId: int)
    requires db.Valid()
    modifies app, db
    ensures db.Valid()
    ensures patientId !in old(db.patients) ==>
      app.patients == old(app.patients) && db.patients == old(db.patients) && db.diagnoses == old(db.diagnoses)
    ensures patientId in old(db.patients) ==>
      && db.patients == old(db.patients) - {patientId}
      && db.diagnoses == Server.Cascade(old(db.diagnoses), patientId)
    ensures patientId in old(db.patients) && IndexOfId(old(app.patients), Some(patientId)).Some? ==>
      var i := IndexOfId(old(app.patients), Some(patientId)).value;
      app.patients == old(app.patients)[..i] + old(app.patients)[i + 1..]
    ensures IndexOfId(old(app.patients), Some(patientId)).None? ==> app.patients == old(app.patients)
    ensures patientId in old(db.patients) && UniqueIds(old(app.patients)) ==>
      IndexOfId(app.patients, Some(patientId)).None?
    ensures UniqueIds(old(app.patients)) ==> UniqueIds(app.patients)
    ensures Known(old(app.patients), old(db.patients)) && UniqueIds(old(app.patients)) ==>
      Known(app.patients, db.patients)
    ensures app.diagnoses == old(app.diagnoses)
  {
    var r := db.DeletePatient(patientId);
    app.DeletePatient(patientId, AsResponse(r));
    if r.Ok? && IndexOfId(old(app.patients), Some(patientId)).Some? && UniqueIds(old(app.patients)) {
      RemoveFirstRemovesId(old(app.patients), patientId);
      assert forall p :: p in app.patients ==> p in old(app.patients) && p.id != Some(patientId);
    }
  }

  /** fetchDiagnoses: the app shows for the patient exactly the stored
      diagnoses of that patient, and for every other patient what it showed. */
  method FetchDiagnoses(app: Client.NetworkManager, db: Server.Database, patientId: int)
    requires db.Valid()
    modifies app
    ensures forall d :: d in OfPatient(app.diagnoses, Some(patientId)) <==>
      d.id.Some? && d.id.value in db.diagnoses && db.diagnoses[d.id.value] == d && d.patientId == Some(patientId)
    ensures var view := OfPatient(app.diagnoses, Some(patientId));
      forall i, j :: 0 <= i < j < |view| ==> view[i].id != view[j].id
    ensures forall q :: q != Some(patientId) ==> OfPatient(app.diagnoses, q) == OfPatient(old(app.diagnoses), q)
    ensures app.patients == old(app.patients)
  {
    var list := db.ReadDiagnoses(patientId);
    app.FetchDiagnoses(patientId, Client.Success(list));
    ReplaceDiagnosesView(old(app.diagnoses), patientId, list, None);
    assert OfPatient(app.diagnoses, Some(patientId)) == list;
    forall d: Diagnosis | d.id.Some? && d.id.value in db.diagnoses && db.diagnoses[d.id.value] == d && d.patientId == Some(patientId)
      ensures d in list
    {
      var k := d.id.value;
      assert k in db.diagnoses && db.diagnoses[k].patientId == Some(patientId);
    }
    forall q | q != Some(patientId)
      ensures OfPatient(app.diagnoses, q) == OfPatient(old(app.diagnoses), q)
    {
      ReplaceDiagnosesView(old(app.diagnoses), patientId, list, q);
    }
  }

  /** addDiagnosis: for a stored patient the app appends the stored row,
      which has a fresh id, the given name and that patient's id; for an
      unknown patient nothing changes. */
  method AddDiagnosis(app: Client.NetworkManager, db: Server.Database, patientId: int, name: string)
    requires db.Valid()
    modifies app, db
    ensures db.Valid()
    ensures patientId !in old(db.patients) ==> app.diagnoses == old(app.diagnoses) && db.diagnoses == old(db.diagnoses)
    ensures patientId in old(db.patients) ==>
      && |app.diagnoses| == |old(app.diagnoses)| + 1
      && app.diagnoses[..|old(app.diagnoses)|] == old(app.diagnoses)
      && var d := app.diagnoses[|old(app.diagnoses)|];
         && d.name == name && d.patientId == Some(patientId)
         && d.id.Some? && d.id.value !in old(db.diagnoses)
         && db.diagnoses == old(db.diagnoses)[d.id.value := d]
    ensures app.patients == old(app.patients) && db.patients == old(db.patients)
  {
    var r := db.CreateDiagnosis(patientId, Client.NewDiagnosis(patientId, name));
    app.AddDiagnosis(AsDecoded(r));
  }

  /** deleteDiagnosis: when the backend deletes the diagnosis, the app's
      refetch leaves it showing exactly the patient's remaining diagnoses,
      without the deleted one; otherwise nothing changes. */
  method DeleteDiagnosis(app: Client.NetworkManager, db: Server.Database, patientId: int, diagnosisId: int)
    requires db.Valid()
    modifies app, db
    ensures db.Valid()
    ensures var deleted := diagnosisId in old(db.diagnoses) && old(db.diagnoses)[diagnosisId].patientId == Some(patientId);
      && (!deleted ==> app.diagnoses == old(app.diagnoses) && db.diagnoses == old(db.diagnoses))
      && (deleted ==> db.diagnoses == old(db.diagnoses) - {diagnosisId})
      && (deleted ==> forall d :: d in OfPatient(app.diagnoses, Some(patientId)) <==>
            d.id.Some? && d.id.value in db.diagnoses && db.diagnoses[d.id.value] == d && d.patientId == Some(patientId))
      && (deleted ==> forall d :: d in OfPatient(app.diagnoses, Some(patientId)) ==> d.id != Some(diagnosisId))
      && (deleted ==> var view := OfPatient(app.diagnoses, Some(patientId));
            forall i, j :: 0 <= i < j < |view| ==> view[i].id != view[j].id)
      && (deleted ==> forall q :: q != Some(patientId) ==> OfPatient(app.diagnoses, q) == OfPatient(old(app.diagnoses), q))
    ensures app.patients == old(app.patients) && db.patients == old(db.patients)
  {
    var r := db.DeleteDiagnosis(patientId, diagnosisId);
    var list := db.ReadDiagnoses(patientId);
    app.DeleteDiagnosis(patientId, AsResponse(r), Client.Success(list));
    if r.Ok? {
      ReplaceDiagnosesView(old(app.diagnoses), patientId, list, None);
      assert OfPatient(app.diagnoses, Some(patientId)) == list;
      forall d: Diagnosis | d.id.Some? && d.id.value in db.diagnoses && db.diagnoses[d.id.value] == d && d.patientId == Some(patientId)
        ensures d in list
      {
        var k := d.id.value;
        assert k in db.diagnoses && db.diagnoses[k].patientId == Some(patientId);
      }
      forall q | q != Some(patientId)
        ensures OfPatient(app.diagnoses, q) == OfPatient(old(app.diagnoses), q)
      {
        ReplaceDiagnosesView(old(app.diagnoses), patientId, list, q);
      }
    }
  }

  /** A patient created with age 40 and then updated to age 41 is listed
      once, with the backend's id and the new age. */
  method CreateThenUpdate() returns (listed: seq<Patient>, stored: map<int, Patient>)
    ensures |listed| == 1
    ensures listed[0].id.Some? && listed[0].name == "Jane Doe" && listed[0].age == Some(41)
    ensures stored == map[listed[0].id.value := listed[0]]
  {
    var db := new Server.Database();
    var app := new Client.NetworkManager();
    CreatePatient(app, db, "Jane Doe", Some(40), "000-00-0000");
    var jane := app.patients[0];
    UpdatePatient(app, db, jane.(age := Some(41)));
    listed, stored := app.patients, db.patients;
  }
}
