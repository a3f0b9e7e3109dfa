# EHR patient/diagnosis records — a Dafny model

The system is a small electronic-health-record app. An iOS client
(`NetworkManager`) keeps two published lists, `patients` and `diagnoses`,
in step with a FastAPI/SQLModel backend that stores the `patient` and
`diagnosis` tables. A diagnosis editor asks a chat-completion service for an
ICD-10 suggestion and puts the answer into its name field.

The model has three parts and one link between them:

- `Client` (`client.dfy`) with `ClientLists` (`client_lists.dfy`). The class
  `NetworkManager` holds the two lists as `seq` fields. Each method is the
  completion handler of one network operation. It takes what the handler
  receives: a decoded value or `Failure`, or a status code. It changes the
  lists as the Swift code does: append, overwrite at `firstIndex`,
  `remove(at:)`, or `removeAll` followed by `append(contentsOf:)`.
  `ClientLists` gives those updates as functions on sequences and proves the
  following about them:
  - the fetch of one patient's diagnoses replaces that patient's entries and
    leaves every other patient's entries as they were;
  - a repeated fetch does not accumulate duplicates;
  - patient ids stay unique.
- `Server` (`server.dfy`). The class `Database` holds the two tables as maps
  from primary key to row. It has one method per endpoint. Each returns
  `Ok(value)` or `Err(NotFound | Conflict | Unprocessable)`, except
  `ReadDiagnoses`, which cannot fail and returns the list itself. `Valid()` states
  two things: every row is stored under its own id, and every diagnosis names
  a stored patient. Every endpoint preserves it.
- `Suggestion` (`suggestion.dfy`). This part is pure: it turns the reply of
  the suggestion request into an optional string, and then into the editor's
  name field.
- `RoundTrip` (`round_trip.dfy`). Each method runs one app operation against
  the backend: the request body the app builds, the endpoint, then the
  completion handler. Its contract says what the app's lists show afterwards,
  relative to the stored tables.

`Records` (`records.dfy`) holds the shared wire records `Patient` and
`Diagnosis` and an `Option` type.

Three behaviours of the code are easy to miss:

- The suggestion wrapper does not yield "absent" when the service reports an
  error. It yields `"Error: " + message` (`ErrorWins`), and the editor then
  shows that text as the diagnosis name.
- The suggestion content is not trimmed (`ContentVerbatim`).
- The editor's placeholder is spelled `"Unkown"`, as in the app.

## Model

| member | source | states |
|---|---|---|
| `Client.NewPatient` | client/EHRtest/NetworkManager.swift:51 | the body `createPatient` sends carries no id and exactly the given name, age and ssn |
| `Client.NewDiagnosis` | client/EHRtest/NetworkManager.swift:154 | the body `addDiagnosis` sends carries no id, the given name and the patient's id |
| `Client.NetworkManager.constructor` | client/EHRtest/NetworkManager.swift:24-25 | both published lists start empty |
| `Client.NetworkManager.FetchPatients` | client/EHRtest/NetworkManager.swift:31-39 | a decoded list replaces `patients` wholesale; on failure `patients` is unchanged; `diagnoses` is never touched |
| `Client.NetworkManager.CreatePatient` | client/EHRtest/NetworkManager.swift:61-66 | on success exactly the decoded patient is appended: length grows by one and the prior entries are unchanged; on failure nothing changes |
| `Client.NetworkManager.UpdatePatient` | client/EHRtest/NetworkManager.swift:90-96 | on success only the first index whose id equals the returned id is overwritten; the length and all other entries are unchanged; with no matching id, or on failure, nothing changes |
| `Client.NetworkManager.DeletePatient` | client/EHRtest/NetworkManager.swift:111-125 | only on status 200 is the first entry with that id removed, keeping the order of the rest; a transport error, a non-HTTP response or any other status changes nothing |
| `Client.NetworkManager.FetchDiagnoses` | client/EHRtest/NetworkManager.swift:133-139 | on success `diagnoses` becomes that patient's entries removed, then the fetched list appended; on failure it is unchanged; `patients` is untouched |
| `Client.NetworkManager.AddDiagnosis` | client/EHRtest/NetworkManager.swift:164-169 | on success exactly the decoded diagnosis is appended; on failure nothing changes |
| `Client.NetworkManager.DeleteDiagnosis` | client/EHRtest/NetworkManager.swift:189-197 | on status 200 the effect is that of `fetchDiagnoses` for the patient with the refetched list; otherwise `diagnoses` is unchanged; `patients` is untouched |
| `ClientLists.ReplaceDiagnoses` | client/EHRtest/NetworkManager.swift:137-138 | the new list holds exactly the kept entries of other patients and the fetched ones, and ends with the fetched list |
| `ClientLists.IndexOfId` | client/EHRtest/NetworkManager.swift:94 | `firstIndex(where:)` by optional id: the result is an index holding the id with no earlier match, or absent exactly when no entry has the id |
| `ClientLists.WithoutPatient` | client/EHRtest/NetworkManager.swift:137 | `removeAll`: an entry survives exactly when its patient id is not the given one; the list never grows |
| `ClientLists.OfPatient` | client/EHRtest/ContentView.swift:30 | the entries shown under one patient: exactly those whose patient id equals it |
| `ClientLists.ReplaceKeepsUniqueIds` | client/EHRtest/NetworkManager.swift:94-95 | overwriting the entry found by id with a record carrying that id keeps patient ids unique |
| `ClientLists.AppendKeepsUniqueIds` | client/EHRtest/NetworkManager.swift:65 | appending a patient whose id is not yet listed keeps patient ids unique |
| `ClientLists.RemoveFirstRemovesId` | client/EHRtest/NetworkManager.swift:119-120 | with unique ids, removing the first match leaves no entry with that id, and the ids left are still unique |
| `ClientLists.WithoutPatientConcat` | client/EHRtest/NetworkManager.swift:137 | the removal distributes over concatenation, so it keeps the relative order of what it keeps |
| `ClientLists.WithoutPatientIdempotent` | client/EHRtest/NetworkManager.swift:137 | removing a patient's entries twice is the same as once |
| `ClientLists.WithoutPatientOfOwn` | client/EHRtest/NetworkManager.swift:137 | a list made only of the patient's entries is emptied |
| `ClientLists.OfPatientConcat` | client/EHRtest/ContentView.swift:30 | the per-patient view of a concatenation is the concatenation of the views |
| `ClientLists.OfPatientWithout` | client/EHRtest/NetworkManager.swift:137 | after the removal the patient shows nothing, and every other patient, including entries without a patient id, shows the same entries in the same order |
| `ClientLists.OfPatientOfOwn` | client/EHRtest/NetworkManager.swift:138 | a fetched list that belongs wholly to the patient is all that patient's view and nothing of any other view |
| `ClientLists.ReplaceDiagnosesView` | client/EHRtest/NetworkManager.swift:137-138 | when every fetched entry belongs to the patient (the backend filter at server/main.py:109 ensures this), after a fetch the patient shows exactly the fetched list, and every other patient shows exactly what it showed before |
| `ClientLists.ReplaceDiagnosesOverrides` | client/EHRtest/NetworkManager.swift:137-138 | when every entry of the first fetch belongs to the patient (the backend filter at server/main.py:109 ensures this), a second fetch for the same patient gives the same list as if the first had never happened |
| `ClientLists.ReplaceDiagnosesIdempotent` | client/EHRtest/NetworkManager.swift:137-138 | repeating an identical fetch whose entries all belong to the patient leaves `diagnoses` as one fetch does: no duplicates accumulate |
| `Server.Cascade` | server/main.py:75-78 | the table after deleting a patient's diagnoses: no row of that patient is left, every other row is kept unchanged |
| `Server.Database.Valid` | server/main.py:6-17 | every row is stored under its own id, and every diagnosis names a stored patient (the foreign key) |
| `Server.StatusCode` | server/main.py:64-65 | each endpoint error maps to an HTTP error status |
| `Server.Above` | server/main.py:13 | there is always an integer key above every key in use, so a fresh primary key exists |
| `Server.AssignKey` | server/main.py:47-49 | a new row keeps the id its body carries, or gets one not in use; a carried id already in use fails with a conflict |
| `Server.CascadeKeepsConsistent` | server/main.py:75-80 | deleting a patient together with all its diagnoses keeps the foreign-key invariant |
| `Server.DeleteWithoutCascadeBreaks` | server/main.py:75-78 | deleting a patient that has a diagnosis without the cascade would break the foreign-key invariant |
| `Server.Database.constructor` | server/main.py:25-26 | the tables start empty and consistent |
| `Server.Database.CreatePatient` | server/main.py:45-50 | the body is stored as given under a fresh id, which the returned row carries; a body with an id already in use is refused and nothing changes |
| `Server.Database.AllPatients` | server/main.py:58 | lists every stored patient exactly once, and nothing else |
| `Server.Database.ReadPatients` | server/main.py:52-59 | a limit above 100 is refused with 422; otherwise the result holds distinct stored patients, at most `limit` of them, and all of them when the offset is not positive and the limit covers the table |
| `Server.Database.ReadPatient` | server/main.py:61-66 | returns the stored row, or NotFound exactly when the id is not stored |
| `Server.Database.DeletePatient` | server/main.py:68-82 | NotFound for an unknown patient, changing nothing; otherwise the patient and exactly the diagnoses naming it are removed, nothing else changes, and the invariant holds |
| `Server.Database.UpdatePatient` | server/main.py:84-94 | NotFound for an unknown patient; otherwise only name, age and ssn are overwritten, the id is kept whatever the body says, and other patients and all diagnoses are untouched |
| `Server.Database.CreateDiagnosis` | server/main.py:96-105 | NotFound for an unknown patient; otherwise the stored row has the path's patient id whatever the body said, the body's name and a fresh id |
| `Server.Database.ReadDiagnoses` | server/main.py:107-110 | exactly the stored diagnoses of that patient, each once; an unknown patient gets an empty list, not an error |
| `Server.Database.DeleteDiagnosis` | server/main.py:112-119 | NotFound when the diagnosis is missing or belongs to another patient; otherwise only that row is removed and it is returned |
| `Suggestion.FirstContent` | client/EHRtest/EditDiagnosesView.swift:62 | present exactly when there is a first choice, and then its content |
| `Suggestion.Suggest` | client/EHRtest/EditDiagnosesView.swift:53-66 | an error field gives `"Error: " + message` even when choices are present; without one the first choice's content; encoding, transport and decoding failures give absent |
| `Suggestion.NameField` | client/EHRtest/EditDiagnosesView.swift:140 | absent becomes the placeholder `"Unkown"`, and any string passes through unchanged |
| `Suggestion.SuggestAbsent` | client/EHRtest/EditDiagnosesView.swift:42-66 | the result is absent exactly on a failure or on a reply with no error and no first choice |
| `Suggestion.ErrorWins` | client/EHRtest/EditDiagnosesView.swift:57-60 | a reported error always gives a result that is the prefix `"Error: "` followed by the message, whatever the choices |
| `Suggestion.ContentVerbatim` | client/EHRtest/EditDiagnosesView.swift:62 | without an error, the first choice's content comes back verbatim, not trimmed or validated |
| `Suggestion.NameFieldEmpty` | client/EHRtest/EditDiagnosesView.swift:140 | the name field is empty exactly when the service answered with empty content |
| `Suggestion.PlaceholderAmbiguous` | client/EHRtest/EditDiagnosesView.swift:140 | a failed request and an answer reading `"Unkown"` give the same name field |
| `Suggestion.SuggestExample` | client/EHRtest/EditDiagnosesView.swift:62 | the answer `E11.9 Type 2 diabetes mellitus` is returned as exactly that string |
| `RoundTrip.AsDecoded` | client/EHRtest/NetworkManager.swift:61-66 | a decoding handler gets the decoded record exactly when the endpoint answered with one |
| `RoundTrip.AsResponse` | client/EHRtest/NetworkManager.swift:111-125 | a DELETE handler sees status 200 exactly when the endpoint succeeded |
| `RoundTrip.FetchPatients` | client/EHRtest/NetworkManager.swift:27-42 | with default paging, the app lists distinct stored patients, at most 100, and all of them when there are at most 100 |
| `RoundTrip.CreatePatient` | client/EHRtest/NetworkManager.swift:44-72 | the app sends a patient without id and ends with one more entry, last, carrying a fresh stored id and the given fields; unique ids stay unique |
| `RoundTrip.UpdatePatient` | client/EHRtest/NetworkManager.swift:74-103 | needs the patient's id; the stored patient gets the new fields and no other stored row changes; the app's entry with that id shows the stored row and every other entry is unchanged; an unknown id changes nothing; the app still lists only stored patients, and unique ids stay unique |
| `RoundTrip.DeletePatient` | client/EHRtest/NetworkManager.swift:105-127 | a stored patient is deleted with its diagnoses; the app drops its first entry with that id and keeps the others in order; with unique ids the patient is no longer listed, ids stay unique and the app lists only stored patients; an unknown id changes nothing; the app's diagnosis list keeps that patient's entries |
| `RoundTrip.FetchDiagnoses` | client/EHRtest/NetworkManager.swift:129-145 | the app shows for the patient exactly the stored diagnoses of that patient, each once (no two with the same id), and for every other patient what it showed before |
| `RoundTrip.AddDiagnosis` | client/EHRtest/NetworkManager.swift:147-175 | for a stored patient the app appends the stored row, with a fresh id, the given name and that patient's id; otherwise nothing changes |
| `RoundTrip.DeleteDiagnosis` | client/EHRtest/NetworkManager.swift:177-199 | after a successful delete the refetch leaves the app showing exactly the patient's remaining stored diagnoses, each once and none with the deleted id, and every other patient's view as it was; otherwise nothing changes |
| `RoundTrip.CreateThenUpdate` | client/EHRtest/NetworkManager.swift:44-103 | a patient created with age 40 and then updated to 41 is listed once, with a stored id, the name given and age 41, and the table holds just that row |

## Left out

- Networking, URL building and JSON encoding and decoding. A completion handler's input is modelled as a parameter: a decoded value, `Failure`, or a status code. A transport error, a missing body and a body that does not decode are one case, `Failure`, because every handler treats them alike.
- `DispatchQueue.main.async` and the races between requests that are in flight at the same time. Each completion is applied as one atomic step, and `RoundTrip` runs one operation at a time with a transport that always delivers.
- Logging through `print`.
- The views' layout, sheets and `@State` flags (`isLoading`).
- The optimistic local removal in the patient list view and its delayed re-fetch of diagnoses.
- The suggestion request itself: the API key, model name, prompt, `max_tokens` and the floating-point `temperature`. Only the reply handling and the editor's fallback are modelled.
- Forced unwraps of ids (`patient.id!`). They are a precondition of `RoundTrip.UpdatePatient`. The crash they would cause is not modelled.
- FastAPI routing, the SQLite engine and session lifecycle, and transactions. Each endpoint is one atomic step on the two maps.
- Server.AssignKey: picks some key not in use instead of SQLite's exact rowid rule (largest key plus one).
- Server.Database.AllPatients: the order rows come back in is the database's choice and is not stated. The order of `ReadPatients` and `ReadDiagnoses` results is likewise left open.
- Server.Database.ReadPatients: the offset is applied to that unstated order. So which patients a positive offset skips is not stated.
- The 64-bit range of SQLite integer keys and of Swift `Int`. Ids and ages are unbounded integers.
- Request validation by FastAPI, other than the `limit` bound. A body missing a required field is rejected before the endpoint runs, so it is not modelled.
