/**
 * The backend: the `patient` and `diagnosis` tables as two maps from
 * primary key to row, and one method per REST endpoint. An endpoint that
 * raises an HTTP error returns `Err`; the database is left as it was.
 */
module Server {
  import opened Records

  /** The HTTP errors the endpoints can end in: a 404 they raise themselves,
      a 500 from a primary key that is already taken when a body carries its
      own id, and a 422 from query validation. */
  datatype Error = NotFound | Conflict | Unprocessable

  function StatusCode(e: Error): (code: int)
    ensures 400 <= code < 600
  {
    match e
    case NotFound => 404
    case Unprocessable => 422
    case Conflict => 500
  }

  datatype Result<+T> = Ok(value: T) | Err(error: Error)

  /** Each row is stored under its own id. */
  ghost predicate PatientsKeyed(ps: map<int, Patient>) {
    forall k :: k in ps ==> ps[k].id == Some(k)
  }

  ghost predicate DiagnosesKeyed(ds: map<int, Diagnosis>) {
    forall k :: k in ds ==> ds[k].id == Some(k)
  }

  /** The foreign key `diagnosis.patient_id -> patient.id`: every diagnosis
      names a stored patient. */
  ghost predicate Referenced(ps: map<int, Patient>, ds: map<int, Diagnosis>) {
    forall k :: k in ds ==> ds[k].patientId.Some? && ds[k].patientId.value in ps
  }

  ghost predicate Consistent(ps: map<int, Patient>, ds: map<int, Diagnosis>) {
    PatientsKeyed(ps) && DiagnosesKeyed(ds) && Referenced(ps, ds)
  }

  /** The diagnosis table once every row of patient `patientId` is deleted. */
  function Cascade(ds: map<int, Diagnosis>, patientId: int): (r: map<int, Diagnosis>)
    ensures r.Keys <= ds.Keys
    ensures forall k :: k in r ==> r[k] == ds[k] && r[k].patientId != Some(patientId)
    ensures forall k :: k in ds && k !in r ==> ds[k].patientId == Some(patientId)
  {
    map k | k in ds && ds[k].patientId != Some(patientId) :: ds[k]
  }

  /** A non-empty set of keys has a member to pick. */
  lemma Inhabited(keys: set<int>)
    requires keys != {}
    ensures exists k :: k in keys
  {
    if forall k :: k !in keys {
      assert false;
    }
  }

  /** A key larger than every key in use; SQLite's rowid choice is of this
      kind, and its existence is all the model needs. */
  ghost function Above(keys: set<int>): (r: int)
    ensures r !in keys && r >= 1
    ensures forall k :: k in keys ==> k < r
  {
    if keys == {} then 1
    else
      Inhabited(keys);
      var x :| x in keys;
      var rest := Above(keys - {x});
      assert forall k :: k in keys && k != x ==> k in keys - {x};
      if x < rest then rest else x + 1
  }

  /** Deleting a patient together with its diagnoses keeps the tables consistent. */
  lemma CascadeKeepsConsistent(ps: map<int, Patient>, ds: map<int, Diagnosis>, patientId: int)
    requires Consistent(ps, ds)
    ensures Consistent(ps - {patientId}, Cascade(ds, patientId))
  {
  }

  /** Deleting a patient without its diagnoses breaks the foreign key as
      soon as the patient has one: the cascade is needed. */
  lemma DeleteWithoutCascadeBreaks(ps: map<int, Patient>, ds: map<int, Diagnosis>, patientId: int, k: int)
    requires k in ds && ds[k].patientId == Some(patientId)
    ensures !Referenced(ps - {patientId}, ds)
  {
  }

  /** How committing a new row settles its primary key: the id the body
      carries if any, else a fresh one; a carried id already in use fails. */
  method AssignKey(requested: Option<int>, taken: set<int>) returns (r: Result<int>)
    ensures r.Err? <==> requested.Some? && requested.value in taken
    ensures r.Err? ==> r.error == Conflict
    ensures r.Ok? ==> r.value !in taken
    ensures r.Ok? && requested.Some? ==> r.value == requested.value
  {
    if requested.Some? {
      if requested.value in taken {
        return Err(Conflict);
      }
      return Ok(requested.value);
    }
    assert Above(taken) !in taken;
    var key :| key !in taken;
    return Ok(key);
  }

  class Database {
    var patients: map<int, Patient>
    var diagnoses: map<int, Diagnosis>

    ghost predicate Valid()
      reads this
    {
      Consistent(patients, diagnoses)
    }

    /** The empty tables `create_db_and_tables` creates. */
    constructor ()
      ensures Valid() && patients == map[] && diagnoses == map[]
    {
      patients := map[];
      diagnoses := map[];
    }

    /** POST /patients/: the body is stored as given, under a fresh id
        unless it carries one. */
    method CreatePatient(patient: Patient) returns (r: Result<Patient>)
      requires Valid()
      modifies this
      ensures Valid()
      ensures r.Err? <==> patient.id.Some? && patient.id.value in old(patients)
      ensures r.Err? ==> r.error == Conflict && patients == old(patients)
      ensures r.Ok? ==> r.value.id.Some? && r.value.id.value !in old(patients)
      ensures r.Ok? && patient.id.Some? ==> r.value.id == patient.id
      ensures r.Ok? ==> r.value == patient.(id := r.value.id)
      ensures r.Ok? ==> patients == old(patients)[r.value.id.value := r.value]
      ensures diagnoses == old(diagnoses)
    {
      var key := AssignKey(patient.id, patients.Keys);
      if key.Err? {
        return Err(key.error);
      }
      var row := patient.(id := Some(key.value));
      patients := patients[key.value := row];
      r := Ok(row);
    }

    /** Every stored patient, in an order the database chooses. */
    method AllPatients() returns (all: seq<Patient>)
      requires Valid()
      ensures forall k :: k in patients ==> patients[k] in all
      ensures forall p :: p in all ==> p.id.Some? && p.id.value in patients && patients[p.id.value] == p
      ensures forall i, j :: 0 <= i < j < |all| ==> all[i].id != all[j].id
      ensures |all| == |patients|
    {
      all := [];
      var remaining := patients.Keys;
      while remaining != {}
        invariant remaining <= patients.Keys
        invariant |all| + |remaining| == |patients.Keys|
        invariant forall k :: k in patients && k !in remaining ==> patients[k] in all
        invariant forall p :: p in all ==>
          p.id.Some? && p.id.value in patients && p.id.value !in remaining && patients[p.id.value] == p
        invariant forall i, j :: 0 <= i < j < |all| ==> all[i].id != all[j].id
        decreases remaining
      {
        Inhabited(remaining);
        var k :| k in remaining;
        all := all + [patients[k]];
        remaining := remaining - {k};
      }
      assert |patients| == |patients.Keys|;
    }

    /** GET /patients/?offset&limit: a limit above 100 is refused; SQLite
        reads a negative limit as no limit and a negative offset as 0. */
    method ReadPatients(offset: int, limit: int) returns (r: Result<seq<Patient>>)
      requires Valid()
      ensures r.Err? <==> limit > 100
      ensures r.Err? ==> r.error == Unprocessable
      ensures r.Ok? ==> forall p :: p in r.value ==> p.id.Some? && p.id.value in patients && patients[p.id.value] == p
      ensures r.Ok? ==> forall i, j :: 0 <= i < j < |r.value| ==> r.value[i].id != r.value[j].id
      ensures r.Ok? && limit >= 0 ==> |r.value| <= limit
      ensures r.Ok? && offset <= 0 && (limit < 0 || |patients| <= limit) ==>
        forall k :: k in patients ==> patients[k] in r.value
    {
      if limit > 100 {
        return Err(Unprocessable);
      }
      var all := AllPatients();
      var from := if offset <= 0 then 0 else if offset < |all| then offset else |all|;
      var to := if limit < 0 || |all| - from <= limit then |all| else from + limit;
      assert forall i :: from <= i < to ==> all[from..to][i - from] == all[i];
      r := Ok(all[from..to]);
    }

    /** GET /patients/{id}: the stored row, or 404. */
    method ReadPatient(patientId: int) returns (r: Result<Patient>)
      ensures r.Ok? <==> patientId in patients
      ensures r.Ok? ==> r.value == patients[patientId]
      ensures r.Err? ==> r.error == NotFound
    {
      if patientId !in patients {
        return Err(NotFound);
      }
      r := Ok(patients[patientId]);
    }

    /** DELETE /patients/{id}: 404 for an unknown patient; otherwise its
        diagnoses are deleted one by one, then the patient. */
    method DeletePatient(patientId: int) returns (r: Result<()>)
      requires Valid()
      modifies this
      ensures Valid()
      ensures r.Ok? <==> patientId in old(patients)
      ensures r.Err? ==> r.error == NotFound && patients == old(patients) && diagnoses == old(diagnoses)
      ensures r.Ok? ==> patients == old(patients) - {patientId}
      ensures r.Ok? ==> diagnoses == Cascade(old(diagnoses), patientId)
    {
      if patientId !in patients {
        return Err(NotFound);
      }
      var doomed := set k | k in diagnoses && diagnoses[k].patientId == Some(patientId);
      var remaining := doomed;
      while remaining != {}
        invariant remaining <= doomed
        invariant patients == old(patients)
        invariant diagnoses == old(diagnoses) - (doomed - remaining)
        decreases remaining
      {
        Inhabited(remaining);
        var k :| k in remaining;
        diagnoses := diagnoses - {k};
        remaining := remaining - {k};
      }
      patients := patients - {patientId};
      assert diagnoses == Cascade(old(diagnoses), patientId);
      CascadeKeepsConsistent(old(patients), old(diagnoses), patientId);
      r := Ok(());
    }

    /** PUT /patients/{id}: 404 for an unknown patient; otherwise name, age
        and ssn are copied from the body and the stored id is kept. */
    method UpdatePatient(patientId: int, patient: Patient) returns (r: Result<Patient>)
      requires Valid()
      modifies this
      ensures Valid()
      ensures r.Ok? <==> patientId in old(patients)
      ensures r.Err? ==> r.error == NotFound && patients == old(patients)
      ensures r.Ok? ==> && r.value.id == Some(patientId)
                        && r.value.name == patient.name
                        && r.value.age == patient.age
                        && r.value.ssn == patient.ssn
      ensures r.Ok? ==> patients == old(patients)[patientId := r.value]
      ensures diagnoses == old(diagnoses)
    {
      if patientId !in patients {
        return Err(NotFound);
      }
      var row := patients[patientId];
      row := row.(name := patient.name);
      row := row.(age := patient.age);
      row := row.(ssn := patient.ssn);
      patients := patients[patientId := row];
      r := Ok(row);
    }

    /** POST /patients/{id}/diagnoses/: 404 for an unknown patient; otherwise
        the body is stored with its patient id set to the one in the path. */
    method CreateDiagnosis(patientId: int, diagnosis: Diagnosis) returns (r: Result<Diagnosis>)
      requires Valid()
      modifies this
      ensures Valid()
      ensures patientId !in old(patients) ==> r == Err(NotFound)
      ensures patientId in old(patients) ==>
        (r.Err? <==> diagnosis.id.Some? && diagnosis.id.value in old(diagnoses))
      ensures r.Err? ==> diagnoses == old(diagnoses)
      ensures r.Ok? ==> r.value.patientId == Some(patientId)
      ensures r.Ok? ==> r.value.name == diagnosis.name
      ensures r.Ok? ==> r.value.id.Some? && r.value.id.value !in old(diagnoses)
      ensures r.Ok? && diagnosis.id.Some? ==> r.value.id == diagnosis.id
      ensures r.Ok? ==> diagnoses == old(diagnoses)[r.value.id.value := r.value]
      ensures patients == old(patients)
    {
      if patientId !in patients {
        return Err(NotFound);
      }
      var row := diagnosis.(patientId := Some(patientId));
      var key := AssignKey(row.id, diagnoses.Keys);
      if key.Err? {
        return Err(key.error);
      }
      row := row.(id := Some(key.value));
      diagnoses := diagnoses[key.value := row];
      r := Ok(row);
    }

    /** GET /patients/{id}/diagnoses/: the rows whose patient id is the one
        in the path; an unknown patient has none, and that is not an error. */
    method ReadDiagnoses(patientId: int) returns (r: seq<Diagnosis>)
      requires Valid()
      ensures forall d :: d in r ==>
        d.patientId == Some(patientId) && d.id.Some? && d.id.value in diagnoses && diagnoses[d.id.value] == d
      ensures forall k :: k in diagnoses && diagnoses[k].patientId == Some(patientId) ==> diagnoses[k] in r
      ensures forall i, j :: 0 <= i < j < |r| ==> r[i].id != r[j].id
      ensures patientId !in patients ==> r == []
    {
      r := [];
      var remaining := diagnoses.Keys;
      while remaining != {}
        invariant remaining <= diagnoses.Keys
        invariant forall k :: k in diagnoses && k !in remaining && diagnoses[k].patientId == Some(patientId) ==>
          diagnoses[k] in r
        invariant forall d :: d in r ==>
          d.patientId == Some(patientId) && d.id.Some? && d.id.value in diagnoses &&
          d.id.value !in remaining && diagnoses[d.id.value] == d
        invariant forall i, j :: 0 <= i < j < |r| ==> r[i].id != r[j].id
        invariant r != [] ==> patientId in patients
        decreases remaining
      {
        Inhabited(remaining);
        var k :| k in remaining;
        if diagnoses[k].patientId == Some(patientId) {
          assert Referenced(patients, diagnoses);
          r := r + [diagnoses[k]];
        }
        remaining := remaining - {k};
      }
    }

    /** DELETE /patients/{id}/diagnoses/{diagnosis_id}: 404 unless the
        diagnosis exists and belongs to that patient; the deleted row is returned. */
    method DeleteDiagnosis(patientId: int, diagnosisId: int) returns (r: Result<Diagnosis>)
      requires Valid()
      modifies this
      ensures Valid()
      ensures r.Ok? <==> diagnosisId in old(diagnoses) && old(diagnoses)[diagnosisId].patientId == Some(patientId)
      ensures r.Err? ==> r.error == NotFound && diagnoses == old(diagnoses)
      ensures r.Ok? ==> r.value == old(diagnoses)[diagnosisId] && diagnoses == old(diagnoses) - {diagnosisId}
      ensures patients == old(patients)
    {
      if diagnosisId !in diagnoses || diagnoses[diagnosisId].patientId != Some(patientId) {
        return Err(NotFound);
      }
      r := Ok(diagnoses[diagnosisId]);
      diagnoses := diagnoses - {diagnosisId};
    }
  }
}
