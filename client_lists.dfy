/**
 * The operations the app's NetworkManager applies to its two published
 * lists, written as functions on sequences, and what they preserve.
 */
module ClientLists {
  import opened Records

  /** `patients.firstIndex(where: { $0.id == id })`. The comparison is on
      optionals, so an absent id matches the first patient without one. */
  function IndexOfId(ps: seq<Patient>, id: Option<int>): (r: Option<nat>)
    ensures r.Some? ==> r.value < |ps| && ps[r.value].id == id
    ensures r.Some? ==> forall j :: 0 <= j < r.value ==> ps[j].id != id
    ensures r.None? <==> forall j :: 0 <= j < |ps| ==> ps[j].id != id
  {
    if ps == [] then None
    else if ps[0].id == id then Some(0)
    else match IndexOfId(ps[1..], id)
      case None => None
      case Some(i) => Some(i + 1)
  }

  /** Patient ids are unique once the backend has assigned them. */
  ghost predicate UniqueIds(ps: seq<Patient>) {
    forall i, j :: 0 <= i < j < |ps| && ps[i].id.Some? ==> ps[i].id != ps[j].id
  }

  /** `diagnoses.removeAll { $0.patient_id == patientId }`: an order-keeping
      filter; entries without a patient id never match. */
  function WithoutPatient(ds: seq<Diagnosis>, patientId: int): (r: seq<Diagnosis>)
    ensures forall d :: d in r <==> d in ds && d.patientId != Some(patientId)
    ensures |r| <= |ds|
  {
    if ds == [] then []
    else (if ds[0].patientId == Some(patientId) then [] else [ds[0]]) + WithoutPatient(ds[1..], patientId)
  }

  /** The entries the patient list shows under one patient: the diagnoses
      whose patient id equals that patient's, in list order. */
  function OfPatient(ds: seq<Diagnosis>, patientId: Option<int>): (r: seq<Diagnosis>)
    ensures forall d :: d in r <==> d in ds && d.patientId == patientId
    ensures |r| <= |ds|
  {
    if ds == [] then []
    else (if ds[0].patientId == patientId then [ds[0]] else []) + OfPatient(ds[1..], patientId)
  }

  /** The new `diagnoses` after a successful `fetchDiagnoses(for: patientId)`:
      that patient's stale entries removed, the fetched list appended. */
  function ReplaceDiagnoses(ds: seq<Diagnosis>, patientId: int, fetched: seq<Diagnosis>): (r: seq<Diagnosis>)
    ensures forall d :: d in r <==> (d in ds && d.patientId != Some(patientId)) || d in fetched
    ensures |fetched| <= |r| <= |ds| + |fetched|
    ensures r[|r| - |fetched|..] == fetched
  {
    WithoutPatient(ds, patientId) + fetched
  }

  /** Every entry of `ds` belongs to the patient `patientId`; the backend's
      diagnosis listing guarantees this of its reply. */
  ghost predicate AllOf(ds: seq<Diagnosis>, patientId: int) {
    forall d :: d in ds ==> d.patientId == Some(patientId)
  }

  // ---- patient list: the id-uniqueness invariant ----

  /** Replacing the entry found by id with a record carrying the same id keeps ids unique. */
  lemma ReplaceKeepsUniqueIds(ps: seq<Patient>, p: Patient)
    requires UniqueIds(ps)
    requires IndexOfId(ps, p.id).Some?
    ensures UniqueIds(ps[IndexOfId(ps, p.id).value := p])
  {
  }

  /** Appending a record whose id is absent from the list keeps ids unique. */
  lemma AppendKeepsUniqueIds(ps: seq<Patient>, p: Patient)
    requires UniqueIds(ps)
    requires p.id.Some? ==> IndexOfId(ps, p.id).None?
    ensures UniqueIds(ps + [p])
  {
  }

  /** With unique ids, removing the first entry with an id removes every
      entry with it, and what is left still has unique ids. */
  lemma RemoveFirstRemovesId(ps: seq<Patient>, id: int)
    requires UniqueIds(ps)
    requires IndexOfId(ps, Some(id)).Some?
    ensures var i := IndexOfId(ps, Some(id)).value;
      && IndexOfId(ps[..i] + ps[i + 1..], Some(id)).None?
      && UniqueIds(ps[..i] + ps[i + 1..])
  {
  }

  // ---- diagnosis list: the partition update of fetchDiagnoses ----

  lemma {:induction false} WithoutPatientConcat(a: seq<Diagnosis>, b: seq<Diagnosis>, patientId: int)
    ensures WithoutPatient(a + b, patientId) == WithoutPatient(a, patientId) + WithoutPatient(b, patientId)
  {
    if a == [] {
      assert a + b == b;
    } else {
      assert (a + b)[1..] == a[1..] + b;
      WithoutPatientConcat(a[1..], b, patientId);
    }
  }

  lemma {:induction false} WithoutPatientIdempotent(ds: seq<Diagnosis>, patientId: int)
    ensures WithoutPatient(WithoutPatient(ds, patientId), patientId) == WithoutPatient(ds, patientId)
  {
    if ds != [] {
      var head := if ds[0].patientId == Some(patientId) then [] else [ds[0]];
      WithoutPatientConcat(head, WithoutPatient(ds[1..], patientId), patientId);
      WithoutPatientIdempotent(ds[1..], patientId);
    }
  }

  /** A list that belongs wholly to `patientId` is emptied by the removal. */
  lemma WithoutPatientOfOwn(ds: seq<Diagnosis>, patientId: int)
    requires AllOf(ds, patientId)
    ensures WithoutPatient(ds, patientId) == []
  {
  }

  lemma {:induction false} OfPatientConcat(a: seq<Diagnosis>, b: seq<Diagnosis>, patientId: Option<int>)
    ensures OfPatient(a + b, patientId) == OfPatient(a, patientId) + OfPatient(b, patientId)
  {
    if a == [] {
      assert a + b == b;
    } else {
      assert (a + b)[1..] == a[1..] + b;
      OfPatientConcat(a[1..], b, patientId);
    }
  }

  /** Removing one patient's entries leaves every other patient's entries,
      including those with no patient id, exactly as they were and in order;
      the removed patient has none left. */
  lemma {:induction false} OfPatientWithout(ds: seq<Diagnosis>, patientId: int, other: Option<int>)
    ensures OfPatient(WithoutPatient(ds, patientId), other) ==
            if other == Some(patientId) then [] else OfPatient(ds, other)
  {
    if ds != [] {
      var head := if ds[0].patientId == Some(patientId) then [] else [ds[0]];
      OfPatientConcat(head, WithoutPatient(ds[1..], patientId), other);
      OfPatientWithout(ds[1..], patientId, other);
    }
  }

  lemma {:induction false} OfPatientOfOwn(ds: seq<Diagnosis>, patientId: int)
    requires AllOf(ds, patientId)
    ensures OfPatient(ds, Some(patientId)) == ds
    ensures forall q :: q != Some(patientId) ==> OfPatient(ds, q) == []
  {
    if ds != [] {
      assert ds[0] in ds;
      assert forall d :: d in ds[1..] ==> d in ds;
      OfPatientOfOwn(ds[1..], patientId);
      assert ds == [ds[0]] + ds[1..];
    }
  }

  /** After a fetch for `patientId`, that patient shows exactly the fetched
      list, and every other patient shows exactly what it showed before. */
  lemma ReplaceDiagnosesView(ds: seq<Diagnosis>, patientId: int, fetched: seq<Diagnosis>, other: Option<int>)
    requires AllOf(fetched, patientId)
    ensures OfPatient(ReplaceDiagnoses(ds, patientId, fetched), Some(patientId)) == fetched
    ensures other != Some(patientId) ==>
      OfPatient(ReplaceDiagnoses(ds, patientId, fetched), other) == OfPatient(ds, other)
  {
    var kept := WithoutPatient(ds, patientId);
    OfPatientConcat(kept, fetched, Some(patientId));
    OfPatientConcat(kept, fetched, other);
    OfPatientWithout(ds, patientId, Some(patientId));
    OfPatientWithout(ds, patientId, other);
    OfPatientOfOwn(fetched, patientId);
  }

  /** A second fetch for the same patient overrides the first completely:
      what the first one appended is removed again. */
  lemma ReplaceDiagnosesOverrides(ds: seq<Diagnosis>, patientId: int, first: seq<Diagnosis>, second: seq<Diagnosis>)
    requires AllOf(first, patientId)
    ensures ReplaceDiagnoses(ReplaceDiagnoses(ds, patientId, first), patientId, second) ==
            ReplaceDiagnoses(ds, patientId, second)
  {
    WithoutPatientConcat(WithoutPatient(ds, patientId), first, patientId);
    WithoutPatientIdempotent(ds, patientId);
    WithoutPatientOfOwn(first, patientId);
  }

  /** Repeating an identical fetch does not accumulate duplicates. */
  lemma ReplaceDiagnosesIdempotent(ds: seq<Diagnosis>, patientId: int, fetched: seq<Diagnosis>)
    requires AllOf(fetched, patientId)
    ensures ReplaceDiagnoses(ReplaceDiagnoses(ds, patientId, fetched), patientId, fetched) ==
            ReplaceDiagnoses(ds, patientId, fetched)
  {
    ReplaceDiagnosesOverrides(ds, patientId, fetched, fetched);
  }
}
