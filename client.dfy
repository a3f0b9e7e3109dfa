/**
 * The app's NetworkManager: two published lists, `patients` and
 * `diagnoses`, and what each network operation's completion handler does
 * to them. The request itself is not modelled here; each method takes what
 * the handler receives once the request is over.
 */
module Client {
  import opened Records
  import opened ClientLists

  /** What a handler that decodes a body ends up with. `Failure` stands for
      a transport error, a missing body and a body that does not decode:
      the handlers treat all three alike and only log them. */
  datatype Decoded<+T> = Failure | Success(value: T)

  /** What a DELETE handler inspects: a transport error, a response that is
      not an HTTP response, or an HTTP status code. */
  datatype Response = TransportError | NotHttp | Status(code: int)

  /** The body `createPatient` sends: no id, the given fields. */
  function NewPatient(name: string, age: Option<int>, ssn: string): (p: Patient)
    ensures p.id.None?
    ensures p.name == name && p.age == age && p.ssn == ssn
  {
    Patient(None, name, age, ssn)
  }

  /** The body `addDiagnosis` sends: no id, the patient's id. */
  function NewDiagnosis(patientId: int, name: string): (d: Diagnosis)
    ensures d.id.None?
    ensures d.name == name && d.patientId == Some(patientId)
  {
    Diagnosis(None, name, Some(patientId))
  }

  class NetworkManager {
    var patients: seq<Patient>
    var diagnoses: seq<Diagnosis>

    constructor ()
      ensures patients == [] && diagnoses == []
    {
      patients := [];
      diagnoses := [];
    }

    /** fetchPatients: a decoded list replaces `patients` wholesale. */
    method FetchPatients(reply: Decoded<seq<Patient>>)
      modifies this
      ensures reply.Success? ==> patients == reply.value
      ensures reply.Failure? ==> patients == old(patients)
      ensures diagnoses == old(diagnoses)
    {
      if reply.Success? {
        patients := reply.value;
      }
    }

    /** createPatient: the decoded patient is appended at the end. */
    method CreatePatient(reply: Decoded<Patient>)
      modifies this
      ensures reply.Success? ==> patients == old(patients) + [reply.value]
      ensures reply.Success? ==> |patients| == |old(patients)| + 1 && patients[..|old(patients)|] == old(patients)
      ensures reply.Failure? ==> patients == old(patients)
      ensures diagnoses == old(diagnoses)
    {
      if reply.Success? {
        patients := patients + [reply.value];
      }
    }

    /** updatePatient: the decoded patient overwrites the first entry with the
        same id; with no such entry nothing changes. */
    method UpdatePatient(reply: Decoded<Patient>)
      modifies this
      ensures |patients| == |old(patients)|
      ensures reply.Success? && IndexOfId(old(patients), reply.value.id).Some? ==>
        var i := IndexOfId(old(patients), reply.value.id).value;
        && patients[i] == reply.value
        && forall j :: 0 <= j < |patients| && j != i ==> patients[j] == old(patients)[j]
      ensures reply.Failure? || IndexOfId(old(patients), reply.value.id).None? ==> patients == old(patients)
      ensures diagnoses == old(diagnoses)
    {
      if reply.Success? {
        var index := IndexOfId(patients, reply.value.id);
        if index.Some? {
          patients := patients[index.value := reply.value];
        }
      }
    }

    /** deletePatient: only on status 200 is the first entry with the id
        removed; the order of the rest is kept. */
    method DeletePatient(patientId: int, response: Response)
      modifies this
      ensures response == Status(200) && IndexOfId(old(patients), Some(patientId)).Some? ==>
        var i := IndexOfId(old(patients), Some(patientId)).value;
        patients == old(patients)[..i] + old(patients)[i + 1..]
      ensures response != Status(200) || IndexOfId(old(patients), Some(patientId)).None? ==>
        patients == old(patients)
      ensures |old(patients)| - 1 <= |patients| <= |old(patients)|
      ensures diagnoses == old(diagnoses)
    {
      if response.Status? && response.code == 200 {
        var index := IndexOfId(patients, Some(patientId));
        if index.Some? {
          patients := patients[..index.value] + patients[index.value + 1..];
        }
      }
    }

    /** fetchDiagnoses(for: patientId): that patient's entries are removed and
        the decoded list is appended; other entries keep their order. */
    method FetchDiagnoses(patientId: int, reply: Decoded<seq<Diagnosis>>)
      modifies this
      ensures reply.Success? ==> diagnoses == ReplaceDiagnoses(old(diagnoses), patientId, reply.value)
      ensures reply.Failure? ==> diagnoses == old(diagnoses)
      ensures patients == old(patients)
    {
      if reply.Success? {
        diagnoses := WithoutPatient(diagnoses, patientId);
        diagnoses := diagnoses + reply.value;
      }
    }

    /** addDiagnosis: the decoded diagnosis is appended at the end. */
    method AddDiagnosis(reply: Decoded<Diagnosis>)
      modifies this
      ensures reply.Success? ==> diagnoses == old(diagnoses) + [reply.value]
      ensures reply.Failure? ==> diagnoses == old(diagnoses)
      ensures patients == old(patients)
    {
      if reply.Success? {
        diagnoses := diagnoses + [reply.value];
      }
    }

    /** deleteDiagnosis: on status 200 the patient's diagnoses are fetched
        again, and `refetch` is what that second request's handler receives;
        otherwise nothing changes. */
    method DeleteDiagnosis(patientId: int, response: Response, refetch: Decoded<seq<Diagnosis>>)
      modifies this
      ensures response == Status(200) && refetch.Success? ==>
        diagnoses == ReplaceDiagnoses(old(diagnoses), patientId, refetch.value)
      ensures response != Status(200) || refetch.Failure? ==> diagnoses == old(diagnoses)
      ensures patients == old(patients)
    {
      if response.Status? && response.code == 200 {
        FetchDiagnoses(patientId, refetch);
      }
    }
  }
}
