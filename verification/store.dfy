/**
 * The `patients` object store: records keyed by `id`, which `getAll` returns in ascending
 * key order and `add` refuses to overwrite.
 */
module PatientStore {
  import opened Wrappers
  import opened PatientTypes

  /** Ordering of string keys: lexicographic by character, a proper prefix first. */
  predicate KeyLess(a: string, b: string)
    decreases |a|
  {
    if a == [] then b != []
    else if b == [] then false
    else if a[0] == b[0] then KeyLess(a[1..], b[1..])
    else a[0] < b[0]
  }

  lemma {:induction false} KeyLessIrreflexive(a: string)
    ensures !KeyLess(a, a)
    decreases |a|
  {
    if a != [] {
      KeyLessIrreflexive(a[1..]);
    }
  }

  lemma {:induction false} KeyLessTransitive(a: string, b: string, c: string)
    requires KeyLess(a, b) && KeyLess(b, c)
    ensures KeyLess(a, c)
    decreases |a|
  {
    if a != [] && b != [] && c != [] && a[0] == b[0] && b[0] == c[0] {
      KeyLessTransitive(a[1..], b[1..], c[1..]);
    }
  }

  lemma {:induction false} KeyLessTotal(a: string, b: string)
    requires a != b
    ensures KeyLess(a, b) || KeyLess(b, a)
    decreases |a|
  {
    if a != [] && b != [] && a[0] == b[0] {
      assert a == [a[0]] + a[1..] && b == [b[0]] + b[1..];
      KeyLessTotal(a[1..], b[1..]);
    }
  }

  /** The store's records, strictly ascending by key. */
  predicate Ordered(s: seq<Patient>) {
    forall i, j :: 0 <= i < j < |s| ==> KeyLess(s[i].id, s[j].id)
  }

  /** Some record in `s` has key `id`. */
  predicate HasKey(s: seq<Patient>, id: string) {
    exists p :: p in s && p.id == id
  }

  /** In an ordered store no two records share a key. */
  lemma OrderedKeysUnique(s: seq<Patient>)
    requires Ordered(s)
    ensures forall i, j :: 0 <= i < |s| && 0 <= j < |s| && s[i].id == s[j].id ==> i == j
  {
    forall i, j | 0 <= i < |s| && 0 <= j < |s| && s[i].id == s[j].id
      ensures i == j
    {
      KeyLessIrreflexive(s[i].id);
    }
  }

  /** A record whose key is below every key of an ordered store may lead it. */
  lemma OrderedCons(x: Patient, s: seq<Patient>)
    requires Ordered(s)
    requires forall j :: 0 <= j < |s| ==> KeyLess(x.id, s[j].id)
    ensures Ordered([x] + s)
  {
    forall i, j | 0 <= i < j < |[x] + s|
      ensures KeyLess(([x] + s)[i].id, ([x] + s)[j].id)
    {
      if i > 0 {
        assert ([x] + s)[i] == s[i - 1];
      }
      assert ([x] + s)[j] == s[j - 1];
    }
  }

  /** Every record of `s[1..]` and `p` has a key above that of `s[0]`, so the same holds for any arrangement of them. */
  lemma AboveFirst(s: seq<Patient>, p: Patient, rest: seq<Patient>)
    requires Ordered(s) && s != [] && KeyLess(s[0].id, p.id)
    requires multiset(rest) == multiset(s[1..]) + multiset{p}
    ensures forall j :: 0 <= j < |rest| ==> KeyLess(s[0].id, rest[j].id)
  {
    forall j | 0 <= j < |rest|
      ensures KeyLess(s[0].id, rest[j].id)
    {
      assert rest[j] in multiset(rest);
      if rest[j] != p {
        assert rest[j] in s[1..];
        var k :| 0 <= k < |s[1..]| && s[1..][k] == rest[j];
        assert s[k + 1] == rest[j];
      }
    }
  }

  /** Places `p` among the records of `s` at the position its key belongs. */
  function InsertByKey(s: seq<Patient>, p: Patient): (r: seq<Patient>)
    requires Ordered(s) && !HasKey(s, p.id)
    ensures Ordered(r)
    ensures multiset(r) == multiset(s) + multiset{p}
  {
    if s == [] then [p]
    else if KeyLess(p.id, s[0].id) then
      assert forall j :: 0 < j < |s| ==> KeyLess(p.id, s[j].id) by {
        forall j | 0 < j < |s|
          ensures KeyLess(p.id, s[j].id)
        {
          KeyLessTransitive(p.id, s[0].id, s[j].id);
        }
      }
      OrderedCons(p, s);
      [p] + s
    else
      assert s[0] in s;
      KeyLessTotal(p.id, s[0].id);
      var rest := InsertByKey(s[1..], p);
      assert s == [s[0]] + s[1..];
      AboveFirst(s, p, rest);
      OrderedCons(s[0], rest);
      [s[0]] + rest
  }

  /** `IDBObjectStore.add`: fails when the key is taken, otherwise stores the record. */
  function Add(s: seq<Patient>, p: Patient): (r: Option<seq<Patient>>)
    requires Ordered(s)
    ensures r.None? <==> HasKey(s, p.id)
    ensures r.Some? ==> Ordered(r.value) && multiset(r.value) == multiset(s) + multiset{p}
  {
    if HasKey(s, p.id) then None else Some(InsertByKey(s, p))
  }
}
