/**
 * The search box of the patient list (`app/patients/page.tsx`): a patient is shown when
 * the lower-cased search term occurs in the lower-cased first name, last name, email or
 * phone number.
 */
module PatientSearch {
  import opened Seqs
  import opened JsText
  import opened PatientTypes
  import opened Db

  /**
   * `field?.toLowerCase().includes(needle)` as a truth value: only text can match; an absent
   * or null field yields `undefined`, which is falsy.
   */
  predicate FieldMatches(field: Value, needle: string) {
    field.Text? && Includes(Lower(field.s), needle)
  }

  predicate Matches(p: Patient, searchTerm: string) {
    var needle := Lower(searchTerm);
    || FieldMatches(p.firstName, needle)
    || FieldMatches(p.lastName, needle)
    || FieldMatches(p.email, needle)
    || FieldMatches(p.phone, needle)
  }

  function Matcher(searchTerm: string): Patient -> bool {
    (p: Patient) => Matches(p, searchTerm)
  }

  /** `filteredPatients`: the loaded patients that match, in the order they were loaded. */
  function FilterPatients(patients: seq<Patient>, searchTerm: string): (r: seq<Patient>)
    ensures IsSubsequence(r, patients)
    ensures forall p :: p in r <==> p in patients && Matches(p, searchTerm)
  {
    FilterIsSubsequence(patients, Matcher(searchTerm));
    forall p ensures p in Filter(patients, Matcher(searchTerm)) <==> p in patients && Matches(p, searchTerm) {
      FilterMembership(patients, Matcher(searchTerm), p);
    }
    Filter(patients, Matcher(searchTerm))
  }

  /** Each patient is shown exactly as often as it was loaded if it matches, and otherwise not at all. */
  lemma FilterPatientsCounts(patients: seq<Patient>, searchTerm: string, p: Patient)
    ensures multiset(FilterPatients(patients, searchTerm))[p] == if Matches(p, searchTerm) then multiset(patients)[p] else 0
  {
    FilterCounts(patients, Matcher(searchTerm), p);
  }

  /** The match, spelled out by positions: the term occurs, ignoring ASCII case, in one of the four fields. */
  lemma MatchesByPosition(p: Patient, searchTerm: string)
    ensures Matches(p, searchTerm) <==>
      exists f :: f in [p.firstName, p.lastName, p.email, p.phone] && f.Text? &&
        exists i :: 0 <= i <= |f.s| && Lower(searchTerm) <= Lower(f.s)[i..]
  {
    var needle := Lower(searchTerm);
    var fields := [p.firstName, p.lastName, p.email, p.phone];
    forall f | f in fields && f.Text?
      ensures FieldMatches(f, needle) <==> exists i :: 0 <= i <= |f.s| && needle <= Lower(f.s)[i..]
    {
      IncludesAt(Lower(f.s), needle);
    }
  }

  /** The empty search shows every patient whose first name is text. */
  lemma EmptyTermKeepsAll(patients: seq<Patient>)
    requires forall i :: 0 <= i < |patients| ==> patients[i].firstName.Text?
    ensures FilterPatients(patients, "") == patients
  {
    forall i | 0 <= i < |patients|
      ensures Matcher("")(patients[i])
    {
      IncludesEmpty(Lower(patients[i].firstName.s));
    }
    FilterKeepAll(patients, Matcher(""));
  }

  /** A patient whose email and phone are not text matches exactly when one of the names does. */
  lemma MissingContactNeverMatches(p: Patient, searchTerm: string)
    requires !p.email.Text? && !p.phone.Text?
    ensures Matches(p, searchTerm) <==> FieldMatches(p.firstName, Lower(searchTerm)) || FieldMatches(p.lastName, Lower(searchTerm))
  {
  }

  /** Searching the search result again with the same term changes nothing. */
  lemma FilterPatientsIdempotent(patients: seq<Patient>, searchTerm: string)
    ensures FilterPatients(FilterPatients(patients, searchTerm), searchTerm) == FilterPatients(patients, searchTerm)
  {
    FilterIdempotent(patients, Matcher(searchTerm));
  }

  /** Terms that agree up to ASCII case show the same patients. */
  lemma SearchIgnoresCase(patients: seq<Patient>, a: string, b: string)
    requires Lower(a) == Lower(b)
    ensures FilterPatients(patients, a) == FilterPatients(patients, b)
  {
    FilterCongruent(patients, Matcher(a), Matcher(b));
  }

  /** The list page searches the store in key order, because its query is never sorted. */
  lemma ListPageShowsStoreOrder(store: seq<Patient>, searchTerm: string)
    ensures FilterPatients(HandleSelect(store, LIST_QUERY, []), searchTerm) == Filter(store, Matcher(searchTerm))
  {
    ListQueryReturnsStore(store);
  }
}
