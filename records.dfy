/**
 * The two record types exchanged between the app and the backend, in the
 * shape both sides agree on: the JSON objects of the REST interface.
 * An absent JSON field (Swift `nil`, Python `None`) is `None`.
 */
module Records {

  datatype Option<+T> = None | Some(value: T) {
    /** Swift's `??` on an optional. */
    function GetOr(default: T): T {
      match this
      case Some(v) => v
      case None => default
    }
  }

  /** A patient; `id` is absent until the backend has stored it. */
  datatype Patient = Patient(id: Option<int>, name: string, age: Option<int>, ssn: string)

  /** A diagnosis; `patientId` refers to the patient it belongs to. */
  datatype Diagnosis = Diagnosis(id: Option<int>, name: string, patientId: Option<int>)
}
