/**
 * The query shim of `lib/db.ts`: a SQL-flavoured string and a positional parameter array
 * are mapped onto the `patients` object store. Only statements that open with SELECT or
 * INSERT are accepted; SELECT recognises a few literal substrings of the query, matched
 * case-sensitively against the text as the caller wrote it.
 */
module Db {
  import opened Wrappers
  import opened Seqs
  import opened JsText
  import opened PatientTypes
  import opened PatientStore

  const UNSUPPORTED_QUERY := "Only SELECT and INSERT queries are supported"
  const INSERT_FAILED := "Error executing INSERT query"

  /** The query the patient list loads with. */
  const LIST_QUERY := "SELECT * FROM patients ORDER BY created_at DESC"
  /** The query the patient detail view loads with, given the record's id. */
  const DETAIL_QUERY := "SELECT * FROM patients WHERE id = $1"
  /** The query the SQL console starts with. */
  const CONSOLE_QUERY := "SELECT * FROM patients LIMIT 10"
  /** The statement the registration form submits, with its template literal's line breaks and indentation. */
  const REGISTER_QUERY :=
    "\n" + "        "
    + "INSERT" + " INTO patients (\n"
    + "          first_name, last_name, date_of_birth, gender, \n"
    + "          email, phone, address, medical_history, created_at\n"
    + "        ) VALUES (\n"
    + "          $1, $2, $3, $4, $5, $6, $7, $8, $9\n"
    + "        )\n"
    + "      "

  datatype Statement = SelectStatement | InsertStatement | Unsupported

  /** The rows a query resolves with and the store after it. */
  datatype QueryResult = QueryResult(rows: seq<Patient>, store: seq<Patient>)

  // ---------------------------------------------------------------- dispatch

  /** `executeQuery`'s routing on the lower-cased, trimmed query text. */
  function Classify(query: string): Statement {
    var lowerQuery := Trim(Lower(query));
    if "select" <= lowerQuery then SelectStatement
    else if "insert" <= lowerQuery then InsertStatement
    else Unsupported
  }

  /** After leading white space, `query` begins with `keyword` in any mix of letter case. */
  predicate OpensWith(query: string, keyword: string) {
    exists k :: 0 <= k <= |query| && AllSpace(query[..k]) && keyword <= Lower(query[k..])
  }

  /** At every position, the lower-cased query and the query agree on leading space and on the keyword. */
  lemma LowerPositionAgrees(query: string, keyword: string, k: nat)
    requires k <= |query|
    ensures var l := Lower(query);
      (AllSpace(l[..k]) && keyword <= l[k..]) <==> (AllSpace(query[..k]) && keyword <= Lower(query[k..]))
  {
    var l := Lower(query);
    LowerSlice(query, k, |query|);
    assert l[k..|query|] == l[k..];
    assert query[k..|query|] == query[k..];
    LowerSlice(query, 0, k);
    LowerKeepsSpaces(query[..k]);
    assert query[0..k] == query[..k];
    assert l[0..k] == l[..k];
  }

  lemma OpensWithLower(query: string, keyword: string)
    requires keyword != [] && !IsJsSpace(keyword[0]) && !IsJsSpace(keyword[|keyword| - 1])
    ensures keyword <= Trim(Lower(query)) <==> OpensWith(query, keyword)
  {
    var l := Lower(query);
    TrimStartsWith(l, keyword);
    if keyword <= Trim(l) {
      var k :| 0 <= k <= |l| && AllSpace(l[..k]) && keyword <= l[k..];
      LowerPositionAgrees(query, keyword, k);
    }
    if OpensWith(query, keyword) {
      var k :| 0 <= k <= |query| && AllSpace(query[..k]) && keyword <= Lower(query[k..]);
      LowerPositionAgrees(query, keyword, k);
    }
  }

  /** A query is routed by the keyword it opens with, whatever its letter case. */
  lemma ClassifyRoutes(query: string)
    ensures Classify(query) == SelectStatement <==> OpensWith(query, "select")
    ensures Classify(query) == InsertStatement <==> !OpensWith(query, "select") && OpensWith(query, "insert")
    ensures Classify(query) == Unsupported <==> !OpensWith(query, "select") && !OpensWith(query, "insert")
  {
    OpensWithLower(query, "select");
    OpensWithLower(query, "insert");
  }

  /** Only one position can end a run of leading white space. */
  lemma LeadingSpaceUnique(s: string, a: nat, b: nat)
    requires a < |s| && b < |s| && AllSpace(s[..a]) && AllSpace(s[..b])
    requires !IsJsSpace(s[a]) && !IsJsSpace(s[b])
    ensures a == b
  {
  }

  /** Once the first non-space position `k` is known, OpensWith only looks there. */
  lemma OpensWithAt(query: string, keyword: string, k: nat)
    requires k < |query| && AllSpace(query[..k]) && !IsJsSpace(query[k])
    requires keyword != [] && !IsJsSpace(keyword[0])
    ensures OpensWith(query, keyword) <==> keyword <= Lower(query[k..])
  {
    if OpensWith(query, keyword) {
      var j :| 0 <= j <= |query| && AllSpace(query[..j]) && keyword <= Lower(query[j..]);
      assert Lower(query[j..])[0] == keyword[0];
      LeadingSpaceUnique(query, j, k);
    }
  }

  /** A query whose text starts with `keyword` at position `k` after white space. */
  lemma KeywordAt(query: string, k: nat, keyword: string, lower: string)
    requires k + |keyword| <= |query| && query[k..k + |keyword|] == keyword && AllSpace(query[..k])
    requires Lower(keyword) == lower && lower != [] && !IsJsSpace(lower[0]) && !IsJsSpace(lower[|lower| - 1])
    ensures lower <= Trim(Lower(query))
  {
    LowerSlice(query, k, k + |keyword|);
    LowerSlice(query, k, |query|);
    assert Lower(query[k..])[..|keyword|] == Lower(query)[k..k + |keyword|];
    OpensWithLower(query, lower);
  }

  /** Every query that names the table after an upper-case SELECT is routed to SELECT. */
  lemma SelectPatientsIsSelect(rest: string)
    ensures Classify("SELECT * FROM patients " + rest) == SelectStatement
  {
    var q := "SELECT * FROM patients " + rest;
    assert "SELECT * FROM patients " == "SELECT" + " * FROM patients ";
    assert q[0..6] == "SELECT";
    var l := Lower("SELECT");
    assert l[0] == 's' && l[1] == 'e' && l[2] == 'l' && l[3] == 'e' && l[4] == 'c' && l[5] == 't';
    assert AllSpace(q[..0]);
    KeywordAt(q, 0, "SELECT", "select");
  }

  lemma RegisterQueryText()
    ensures REGISTER_QUERY[..9] == "\n        " && REGISTER_QUERY[9..15] == "INSERT"
  {
    var lead := "\n" + "        ";
    var first := lead + "INSERT";
    assert |lead| == 9 && |first| == 15;
    assert REGISTER_QUERY[..15] == first;
    assert first[..9] == lead && first[9..15] == "INSERT";
  }

  /** A query whose first non-space characters spell INSERT is routed to INSERT. */
  lemma InsertAfterSpaces(q: string, k: nat)
    requires k + 6 <= |q| && AllSpace(q[..k]) && q[k..k + 6] == "INSERT"
    ensures Classify(q) == InsertStatement
  {
    var l := Lower("INSERT");
    assert l[0] == 'i' && l[1] == 'n' && l[2] == 's' && l[3] == 'e' && l[4] == 'r' && l[5] == 't';
    LowerSlice(q, k, k + 6);
    LowerSlice(q, k, |q|);
    assert Lower(q[k..])[..6] == "insert";
    assert q[k] == 'I';
    OpensWithAt(q, "insert", k);
    OpensWithAt(q, "select", k);
    ClassifyRoutes(q);
  }

  /** The registration form's statement opens with a line break and indentation, which trimming removes. */
  lemma RegisterQueryIsInsert()
    ensures Classify(REGISTER_QUERY) == InsertStatement
  {
    RegisterQueryText();
    assert AllSpace(REGISTER_QUERY[..9]);
    InsertAfterSpaces(REGISTER_QUERY, 9);
  }

  // ---------------------------------------------------------------- WHERE

  /** The filter `handleSelect` passes to `Array.prototype.filter` when the WHERE check fires. */
  function IdFilter(query: string, key: Value): Patient -> bool {
    (p: Patient) => if Includes(query, "id =") && Truthy(key) then Text(p.id) == key else true
  }

  /** The WHERE check filters by key: `where` and `id =` occur and `params[0]` is truthy. */
  predicate FiltersById(query: string, params: seq<Value>) {
    Includes(query, "where") && |params| > 0 && Includes(query, "id =") && Truthy(params[0])
  }

  function WhereStage(rows: seq<Patient>, query: string, params: seq<Value>): (r: seq<Patient>)
    ensures IsSubsequence(r, rows)
    ensures FiltersById(query, params) ==> forall p :: p in r <==> p in rows && Text(p.id) == params[0]
    ensures !FiltersById(query, params) ==> r == rows
  {
    if Includes(query, "where") && |params| > 0 then
      var keep := IdFilter(query, params[0]);
      FilterIsSubsequence(rows, keep);
      if FiltersById(query, params) then
        forall p ensures p in Filter(rows, keep) <==> p in rows && Text(p.id) == params[0] {
          FilterMembership(rows, keep, p);
        }
        Filter(rows, keep)
      else
        FilterKeepAll(rows, keep);
        Filter(rows, keep)
    else
      SubsequenceReflexive(rows);
      rows
  }

  /** Over a store with unique keys, filtering by a key leaves exactly the record with that key, or nothing. */
  lemma WhereFindsKey(store: seq<Patient>, query: string, params: seq<Value>)
    requires Ordered(store) && FiltersById(query, params)
    ensures params[0].Text? && HasKey(store, params[0].s) ==>
      exists i :: 0 <= i < |store| && store[i].id == params[0].s && WhereStage(store, query, params) == [store[i]]
    ensures !(params[0].Text? && HasKey(store, params[0].s)) ==> WhereStage(store, query, params) == []
  {
    var r := WhereStage(store, query, params);
    var key := params[0];
    var keep := (p: Patient) => Text(p.id) == key;
    FilterIsSubsequence(store, keep);
    OrderedKeysUnique(store);
    forall x
      ensures multiset(r)[x] == if keep(x) then multiset(store)[x] else 0
    {
      RowCount(store, query, params, x);
    }
    FilterUnique(store, keep, r);
    if key.Text? && HasKey(store, key.s) {
      var p :| p in store && p.id == key.s;
      var i :| 0 <= i < |store| && store[i] == p;
      SingleKeyFilter(store, keep, i);
    } else {
      NoKeyFilter(store, keep);
    }
  }

  /** How often a record occurs among the rows the WHERE check keeps. */
  lemma RowCount(store: seq<Patient>, query: string, params: seq<Value>, x: Patient)
    requires FiltersById(query, params)
    ensures multiset(WhereStage(store, query, params))[x] == if Text(x.id) == params[0] then multiset(store)[x] else 0
  {
    FilterCounts(store, IdFilter(query, params[0]), x);
  }

  lemma {:induction false} SingleKeyFilter(store: seq<Patient>, keep: Patient -> bool, i: nat)
    requires i < |store| && keep(store[i])
    requires forall j :: 0 <= j < |store| && j != i ==> !keep(store[j])
    ensures Filter(store, keep) == [store[i]]
    decreases |store|
  {
    if i == 0 {
      NoKeyFilter(store[1..], keep);
    } else {
      SingleKeyFilter(store[1..], keep, i - 1);
    }
  }

  lemma {:induction false} NoKeyFilter(store: seq<Patient>, keep: Patient -> bool)
    requires forall j :: 0 <= j < |store| ==> !keep(store[j])
    ensures Filter(store, keep) == []
    decreases |store|
  {
    if store != [] {
      NoKeyFilter(store[1..], keep);
    }
  }

  // ---------------------------------------------------------------- ORDER BY

  /** `new Date(p.created_at).getTime()`; values that are not dates count as the epoch. */
  function SortKey(p: Patient): int {
    match p.createdAt
    case Time(t) => t
    case _ => 0
  }

  predicate NewestFirst(s: seq<Patient>) {
    forall i, j :: 0 <= i < j < |s| ==> SortKey(s[i]) >= SortKey(s[j])
  }

  /** A record at least as new as every record of a newest-first sequence may lead it. */
  lemma NewestFirstCons(x: Patient, s: seq<Patient>)
    requires NewestFirst(s)
    requires forall j :: 0 <= j < |s| ==> SortKey(x) >= SortKey(s[j])
    ensures NewestFirst([x] + s)
  {
    forall i, j | 0 <= i < j < |[x] + s|
      ensures SortKey(([x] + s)[i]) >= SortKey(([x] + s)[j])
    {
      if i > 0 {
        assert ([x] + s)[i] == s[i - 1];
      }
      assert ([x] + s)[j] == s[j - 1];
    }
  }

  /** Places `p` before the first record that is not newer than it. */
  function InsertNewestFirst(p: Patient, s: seq<Patient>): (r: seq<Patient>)
    requires NewestFirst(s)
    ensures NewestFirst(r)
    ensures multiset(r) == multiset(s) + multiset{p}
  {
    if s == [] || SortKey(p) >= SortKey(s[0]) then
      NewestFirstCons(p, s);
      [p] + s
    else
      var rest := InsertNewestFirst(p, s[1..]);
      assert s == [s[0]] + s[1..];
      assert NewestFirst(s[1..]);
      assert forall j :: 0 <= j < |rest| ==> SortKey(s[0]) >= SortKey(rest[j]) by {
        forall j | 0 <= j < |rest|
          ensures SortKey(s[0]) >= SortKey(rest[j])
        {
          assert rest[j] in multiset(rest);
          if rest[j] != p {
            assert rest[j] in s[1..];
            var k :| 0 <= k < |s[1..]| && s[1..][k] == rest[j];
            assert s[k + 1] == rest[j];
          }
        }
      }
      NewestFirstCons(s[0], rest);
      [s[0]] + rest
  }

  /**
   * `results.sort((a, b) => time(b) - time(a))`: newest first. `Array.prototype.sort` is
   * stable, and so is this insertion sort.
   */
  function SortNewestFirst(s: seq<Patient>): (r: seq<Patient>)
    ensures NewestFirst(r)
    ensures multiset(r) == multiset(s)
  {
    if s == [] then []
    else
      assert s == [s[0]] + s[1..];
      InsertNewestFirst(s[0], SortNewestFirst(s[1..]))
  }

  function WithSortKey(k: int): Patient -> bool {
    (p: Patient) => SortKey(p) == k
  }

  lemma {:induction false} InsertNewestFirstStable(p: Patient, s: seq<Patient>, k: int)
    requires NewestFirst(s)
    ensures Filter(InsertNewestFirst(p, s), WithSortKey(k)) == Filter([p] + s, WithSortKey(k))
    decreases |s|
  {
    if s != [] && SortKey(p) < SortKey(s[0]) {
      var keep := WithSortKey(k);
      InsertNewestFirstStable(p, s[1..], k);
      assert ([p] + s)[1..] == s;
      assert ([s[0]] + InsertNewestFirst(p, s[1..]))[1..] == InsertNewestFirst(p, s[1..]);
      assert ([p] + s[1..])[1..] == s[1..];
      if keep(p) {
        assert !keep(s[0]);
        assert s == [s[0]] + s[1..];
      }
    }
  }

  /** Records with equal creation times keep their relative order. */
  lemma {:induction false} SortStable(s: seq<Patient>, k: int)
    ensures Filter(SortNewestFirst(s), WithSortKey(k)) == Filter(s, WithSortKey(k))
    decreases |s|
  {
    if s != [] {
      SortStable(s[1..], k);
      InsertNewestFirstStable(s[0], SortNewestFirst(s[1..]), k);
      assert s == [s[0]] + s[1..];
    }
  }

  function OrderStage(rows: seq<Patient>, query: string): (r: seq<Patient>)
    ensures multiset(r) == multiset(rows)
    ensures Includes(query, "order by") && Includes(query, "created_at desc") ==> NewestFirst(r)
    ensures !(Includes(query, "order by") && Includes(query, "created_at desc")) ==> r == rows
  {
    if Includes(query, "order by") then
      if Includes(query, "created_at desc") then SortNewestFirst(rows) else rows
    else rows
  }

  // ---------------------------------------------------------------- LIMIT

  /** Length of the run of decimal digits that `s` opens with. */
  function DigitRun(s: string): (n: nat)
    ensures n <= |s| && AllDigits(s[..n])
    ensures n < |s| ==> !IsDigit(s[n])
  {
    if s != [] && IsDigit(s[0]) then 1 + DigitRun(s[1..]) else 0
  }

  /** The regular expression `/limit\s+(\d+)/i` matches at position `i` of `query`. */
  predicate LimitMatchAt(query: string, i: nat) {
    && i + 5 <= |query|
    && Lower(query[i..i + 5]) == "limit"
    && var j := i + 5 + SpaceRun(query[i + 5..]);
    && j > i + 5 && j < |query| && IsDigit(query[j])
  }

  /** The capture group `(\d+)` of the match at `i`: the whole run of digits. */
  function LimitCapture(query: string, i: nat): (digits: string)
    requires LimitMatchAt(query, i)
    ensures digits != [] && AllDigits(digits)
    ensures var j := i + 5 + SpaceRun(query[i + 5..]);
      && j + |digits| <= |query| && query[j..j + |digits|] == digits
      && (j + |digits| < |query| ==> !IsDigit(query[j + |digits|]))
  {
    var j := i + 5 + SpaceRun(query[i + 5..]);
    var n := DigitRun(query[j..]);
    assert query[j..][..n] == query[j..j + n];
    query[j..j + n]
  }

  /** The position of the leftmost match at or after `from`, as `String.prototype.match` finds it. */
  function FindLimitMatch(query: string, from: nat): (r: Option<nat>)
    ensures r.Some? ==> from <= r.value && LimitMatchAt(query, r.value)
    ensures r.Some? ==> forall j: nat :: from <= j < r.value ==> !LimitMatchAt(query, j)
    ensures r.None? ==> forall j: nat :: from <= j ==> !LimitMatchAt(query, j)
    decreases |query| - from
  {
    if from + 5 > |query| then None
    else if LimitMatchAt(query, from) then Some(from)
    else FindLimitMatch(query, from + 1)
  }

  /** The row limit a SELECT applies: only when `limit` occurs, params is non-empty and the pattern matches. */
  function LimitOf(query: string, params: seq<Value>): Option<nat> {
    if Includes(query, "limit") && |params| > 0 then
      match FindLimitMatch(query, 0)
      case Some(i) => Some(ParseDecimal(LimitCapture(query, i)))
      case None => None
    else None
  }

  /** `results.slice(0, limit)`. */
  function LimitStage(rows: seq<Patient>, query: string, params: seq<Value>): (r: seq<Patient>)
    ensures r <= rows
    ensures LimitOf(query, params).Some? ==> |r| == Min(LimitOf(query, params).value, |rows|)
    ensures LimitOf(query, params).None? ==> r == rows
    ensures !(Includes(query, "limit") && |params| > 0) ==> r == rows
  {
    match LimitOf(query, params)
    case Some(n) => rows[..Min(n, |rows|)]
    case None => rows
  }

  function Min(a: nat, b: nat): nat {
    if a < b then a else b
  }

  // ---------------------------------------------------------------- SELECT

  /** `handleSelect`: every record of the store, filtered, then ordered, then limited. */
  function HandleSelect(store: seq<Patient>, query: string, params: seq<Value>): (rows: seq<Patient>)
    ensures multiset(rows) <= multiset(store)
  {
    var filtered := WhereStage(store, query, params);
    SubsequenceMultiset(filtered, store);
    var ordered := OrderStage(filtered, query);
    var limited := LimitStage(ordered, query, params);
    assert ordered == limited + ordered[|limited|..];
    limited
  }

  // ---------------------------------------------------------------- INSERT

  /** The record `handleInsert` builds: falsy optional parameters become `null`, a falsy creation time becomes `now`. */
  function NewPatient(params: seq<Value>, id: string, now: int): (p: Patient)
    ensures p.email == Null || Truthy(p.email)
    ensures p.phone == Null || Truthy(p.phone)
    ensures p.address == Null || Truthy(p.address)
    ensures p.medicalHistory == Null || Truthy(p.medicalHistory)
    ensures Truthy(p.createdAt)
  {
    Patient(
      id,
      Param(params, 0),
      Param(params, 1),
      Param(params, 2),
      Param(params, 3),
      Or(Param(params, 4), Null),
      Or(Param(params, 5), Null),
      Or(Param(params, 6), Null),
      Or(Param(params, 7), Null),
      Or(Param(params, 8), Time(now)))
  }

  /** Which parameter lands in which field of the new record. */
  lemma NewPatientFields(params: seq<Value>, id: string, now: int)
    ensures var p := NewPatient(params, id, now);
      && p.id == id
      && p.firstName == Param(params, 0) && p.lastName == Param(params, 1)
      && p.dateOfBirth == Param(params, 2) && p.gender == Param(params, 3)
      && (Truthy(Param(params, 4)) ==> p.email == Param(params, 4))
      && (Truthy(Param(params, 5)) ==> p.phone == Param(params, 5))
      && (Truthy(Param(params, 6)) ==> p.address == Param(params, 6))
      && (Truthy(Param(params, 7)) ==> p.medicalHistory == Param(params, 7))
      && (!Truthy(Param(params, 4)) ==> p.email == Null)
      && (!Truthy(Param(params, 5)) ==> p.phone == Null)
      && (!Truthy(Param(params, 6)) ==> p.address == Null)
      && (!Truthy(Param(params, 7)) ==> p.medicalHistory == Null)
      && (Truthy(Param(params, 8)) ==> p.createdAt == Param(params, 8))
      && (!Truthy(Param(params, 8)) ==> p.createdAt == Time(now))
  {
  }

  /** `handleInsert`: adds the new record under the fresh key `newId`; the query text is not read. */
  function HandleInsert(store: seq<Patient>, params: seq<Value>, newId: string, now: int): (r: Result<QueryResult, string>)
    requires Ordered(store)
    ensures r.Failure? <==> HasKey(store, newId)
    ensures r.Failure? ==> r.error == INSERT_FAILED
    ensures r.Success? ==> r.value.rows == [NewPatient(params, newId, now)]
    ensures r.Success? ==> Ordered(r.value.store)
    ensures r.Success? ==> multiset(r.value.store) == multiset(store) + multiset(r.value.rows)
  {
    var patient := NewPatient(params, newId, now);
    match Add(store, patient)
    case Some(stored) => Success(QueryResult([patient], stored))
    case None => Failure(INSERT_FAILED)
  }

  // ---------------------------------------------------------------- executeQuery

  /**
   * `executeQuery`. The key `uuidv4()` would generate and the current time are
   * parameters.
   */
  function ExecuteQuery(store: seq<Patient>, query: string, params: seq<Value>, newId: string, now: int): (r: Result<QueryResult, string>)
    requires Ordered(store)
    ensures r == Failure(UNSUPPORTED_QUERY) <==> Classify(query) == Unsupported
    ensures Classify(query) == SelectStatement ==> r.Success? && r.value.store == store
    ensures r.Success? ==> multiset(r.value.rows) <= multiset(r.value.store)
    ensures r.Success? ==> Ordered(r.value.store)
    ensures Classify(query) == InsertStatement ==> (r.Success? <==> !HasKey(store, newId))
    ensures Classify(query) == InsertStatement && r.Failure? ==> r.error == INSERT_FAILED
    ensures Classify(query) == SelectStatement ==> r.value.rows == HandleSelect(store, query, params)
    ensures Classify(query) == InsertStatement && r.Success? ==>
      && r.value.rows == [NewPatient(params, newId, now)]
      && multiset(r.value.store) == multiset(store) + multiset(r.value.rows)
  {
    match Classify(query)
    case SelectStatement => Success(QueryResult(HandleSelect(store, query, params), store))
    case InsertStatement => HandleInsert(store, params, newId, now)
    case Unsupported => Failure(UNSUPPORTED_QUERY)
  }

  // ---------------------------------------------------------------- consequences

  /** Unless both `order by` and `created_at desc` occur in lower case, rows come in store (key) order. */
  lemma UnorderedSelectKeepsStoreOrder(store: seq<Patient>, query: string, params: seq<Value>)
    requires !(Includes(query, "order by") && Includes(query, "created_at desc"))
    ensures IsSubsequence(HandleSelect(store, query, params), store)
  {
    var filtered := WhereStage(store, query, params);
    PrefixSubsequence(LimitStage(filtered, query, params), filtered, store);
  }

  /** With both ordering strings present the rows are newest first. */
  lemma OrderedSelectIsNewestFirst(store: seq<Patient>, query: string, params: seq<Value>)
    requires Includes(query, "order by") && Includes(query, "created_at desc")
    ensures NewestFirst(HandleSelect(store, query, params))
  {
    var ordered := OrderStage(WhereStage(store, query, params), query);
    var rows := LimitStage(ordered, query, params);
    assert forall i :: 0 <= i < |rows| ==> rows[i] == ordered[i];
  }

  /** Without parameters neither the WHERE nor the LIMIT check fires: every stored record is returned. */
  lemma ParameterlessSelectReturnsEveryRecord(store: seq<Patient>, query: string)
    ensures multiset(HandleSelect(store, query, [])) == multiset(store)
  {
  }

  /** The characters of the table clause the application's queries share. */
  lemma TableClauseText()
    ensures 'y' !in "SELECT * FROM patients " && 'w' !in "SELECT * FROM patients " && 'l' !in "SELECT * FROM patients "
  {
  }

  lemma ListQueryText()
    ensures !Includes(LIST_QUERY, "order by")
  {
    TableClauseText();
    assert LIST_QUERY == "SELECT * FROM patients " + "ORDER BY created_at DESC";
    assert 'y' !in "ORDER BY created_at DESC";
    ExcludesByChar(LIST_QUERY, "order by", 'y');
  }

  lemma DetailQueryText()
    ensures !Includes(DETAIL_QUERY, "where") && !Includes(DETAIL_QUERY, "order by") && !Includes(DETAIL_QUERY, "limit")
  {
    TableClauseText();
    assert DETAIL_QUERY == "SELECT * FROM patients " + "WHERE id = $1";
    assert 'y' !in "WHERE id = $1" && 'w' !in "WHERE id = $1" && 'l' !in "WHERE id = $1";
    ExcludesByChar(DETAIL_QUERY, "where", 'w');
    ExcludesByChar(DETAIL_QUERY, "order by", 'y');
    ExcludesByChar(DETAIL_QUERY, "limit", 'l');
  }

  lemma ConsoleQueryText()
    ensures !Includes(CONSOLE_QUERY, "order by")
  {
    TableClauseText();
    assert CONSOLE_QUERY == "SELECT * FROM patients " + "LIMIT 10";
    assert 'y' !in "LIMIT 10";
    ExcludesByChar(CONSOLE_QUERY, "order by", 'y');
  }

  /**
   * The patient list asks for `ORDER BY created_at DESC` in upper case, which the
   * case-sensitive checks do not see: it receives the store in key order, unsorted.
   */
  lemma ListQueryReturnsStore(store: seq<Patient>)
    ensures HandleSelect(store, LIST_QUERY, []) == store
  {
    ListQueryText();
  }

  /** Two records whose key order is the reverse of their age: the patient list shows the older first. */
  lemma ListQueryNotNewestFirst()
    ensures var older := Patient("a", Text("Ada"), Text("Lovelace"), Text("1815-12-10"), Text("female"), Null, Null, Null, Null, Time(1));
      var newer := Patient("b", Text("Alan"), Text("Turing"), Text("1912-06-23"), Text("male"), Null, Null, Null, Null, Time(2));
      && Ordered([older, newer])
      && HandleSelect([older, newer], LIST_QUERY, []) == [older, newer]
      && !NewestFirst(HandleSelect([older, newer], LIST_QUERY, []))
  {
    var older := Patient("a", Text("Ada"), Text("Lovelace"), Text("1815-12-10"), Text("female"), Null, Null, Null, Null, Time(1));
    var newer := Patient("b", Text("Alan"), Text("Turing"), Text("1912-06-23"), Text("male"), Null, Null, Null, Null, Time(2));
    assert KeyLess("a", "b");
    assert Ordered([older, newer]);
    assert SortKey(older) == 1 && SortKey(newer) == 2;
    ListQueryReturnsStore([older, newer]);
    assert [older, newer][0] == older && [older, newer][1] == newer;
  }

  /**
   * The detail view asks for `WHERE id = $1` in upper case, so the key is never compared:
   * it receives the whole store, and shows its first record, whatever key it asked for.
   */
  lemma DetailQueryReturnsStore(store: seq<Patient>, id: string)
    ensures HandleSelect(store, DETAIL_QUERY, [Text(id)]) == store
  {
    DetailQueryText();
  }

  /** The console's initial `LIMIT 10` is upper case and comes without parameters: every record is returned. */
  lemma ConsoleQueryReturnsStore(store: seq<Patient>)
    ensures HandleSelect(store, CONSOLE_QUERY, []) == store
  {
    ConsoleQueryText();
  }

  /** A query whose `limit` is lower case, with its pattern matched at position 23 and nowhere before. */
  const LIMIT_TWO_QUERY := "SELECT * FROM patients " + "limit 2"

  /** The query's characters, cut where the only upper-case `L` before position 23 stands. */
  lemma LimitTwoShape()
    ensures LIMIT_TWO_QUERY == "SE" + "L" + "ECT * FROM patients " + "limit" + " 2"
    ensures 'l' !in "SE" && 'L' !in "SE" && 'l' !in "ECT * FROM patients " && 'L' !in "ECT * FROM patients "
  {
  }

  /** Before position 23 no letter `l` in either case is followed by an `i` in either case. */
  lemma LimitTwoNoEarlierL(k: nat)
    requires k < 23
    ensures LowerChar(LIMIT_TWO_QUERY[k]) == 'l' ==> LowerChar(LIMIT_TWO_QUERY[k + 1]) != 'i'
  {
    var q := LIMIT_TWO_QUERY;
    LimitTwoShape();
    if k < 2 {
      assert q[k] == "SE"[k];
    } else if k == 2 {
      assert q[3] == 'E';
    } else {
      assert q[k] == "ECT * FROM patients "[k - 3];
    }
  }

  /** The pattern does not match before position 23. */
  lemma LimitTwoNoEarlierMatch(k: nat)
    requires k < 23
    ensures !LimitMatchAt(LIMIT_TWO_QUERY, k)
  {
    var q := LIMIT_TWO_QUERY;
    LimitTwoNoEarlierL(k);
    var w := Lower(q[k..k + 5]);
    assert w[0] == LowerChar(q[k]) && w[1] == LowerChar(q[k + 1]);
  }

  lemma LimitTwoMatchAt()
    ensures LimitMatchAt(LIMIT_TWO_QUERY, 23)
    ensures LimitCapture(LIMIT_TWO_QUERY, 23) == "2"
  {
    var q := LIMIT_TWO_QUERY;
    assert q[23..28] == "limit";
    assert q[28..] == " 2";
    assert Lower("limit") == "limit";
    assert q[28..][1..] == "2";
    assert SpaceRun(q[28..]) == 1;
    assert q[29..] == "2";
    assert DigitRun(q[29..]) == 1;
  }

  lemma LimitTwoMatch()
    ensures FindLimitMatch(LIMIT_TWO_QUERY, 0) == Some(23)
    ensures LimitCapture(LIMIT_TWO_QUERY, 23) == "2"
  {
    LimitTwoMatchAt();
    forall k: nat | k < 23
      ensures !LimitMatchAt(LIMIT_TWO_QUERY, k)
    {
      LimitTwoNoEarlierMatch(k);
    }
  }

  /**
   * A lower-case `limit` that comes with a parameter does apply: the query above returns the
   * first two records of the store, in key order.
   */
  lemma LimitTwoReturnsFirstRecords(store: seq<Patient>, params: seq<Value>)
    requires params != []
    ensures HandleSelect(store, LIMIT_TWO_QUERY, params) == store[..Min(2, |store|)]
  {
    var q := LIMIT_TWO_QUERY;
    TableClauseText();
    assert 'y' !in "limit 2" && 'w' !in "limit 2";
    ExcludesByChar(q, "where", 'w');
    ExcludesByChar(q, "order by", 'y');
    assert q[23..] == "limit 2";
    IncludesWitness(q, "limit", 23);
    LimitTwoMatch();
    assert ParseDecimal("2") == 2;
    assert LimitOf(q, params) == Some(2);
  }

  /** After a successful INSERT, filtering by the new key finds exactly the inserted record. */
  lemma InsertedRecordIsFound(store: seq<Patient>, params: seq<Value>, newId: string, now: int, query: string)
    requires Ordered(store) && newId != []
    requires Includes(query, "where") && Includes(query, "id =")
    requires HandleInsert(store, params, newId, now).Success?
    ensures var r := HandleInsert(store, params, newId, now).value;
      WhereStage(r.store, query, [Text(newId)]) == r.rows
  {
    var r := HandleInsert(store, params, newId, now).value;
    var patient := r.rows[0];
    assert patient in multiset(r.store);
    assert HasKey(r.store, newId);
    WhereFindsKey(r.store, query, [Text(newId)]);
    var i :| 0 <= i < |r.store| && r.store[i].id == newId && WhereStage(r.store, query, [Text(newId)]) == [r.store[i]];
    var j :| 0 <= j < |r.store| && r.store[j] == patient;
    OrderedKeysUnique(r.store);
  }

  /** Loading the patient list succeeds on every store and returns the whole store in key order. */
  lemma ListPageLoad(store: seq<Patient>, newId: string, now: int)
    requires Ordered(store)
    ensures ExecuteQuery(store, LIST_QUERY, [], newId, now) == Success(QueryResult(store, store))
  {
    assert LIST_QUERY == "SELECT * FROM patients " + "ORDER BY created_at DESC";
    SelectPatientsIsSelect("ORDER BY created_at DESC");
    ListQueryReturnsStore(store);
  }

  /** Loading a patient's details returns the whole store, whichever key is asked for. */
  lemma DetailPageLoad(store: seq<Patient>, id: string, newId: string, now: int)
    requires Ordered(store)
    ensures ExecuteQuery(store, DETAIL_QUERY, [Text(id)], newId, now) == Success(QueryResult(store, store))
  {
    assert DETAIL_QUERY == "SELECT * FROM patients " + "WHERE id = $1";
    SelectPatientsIsSelect("WHERE id = $1");
    DetailQueryReturnsStore(store, id);
  }

  /** Submitting the registration form adds the new record unless its key is already taken. */
  lemma RegisterSubmit(store: seq<Patient>, params: seq<Value>, newId: string, now: int)
    requires Ordered(store)
    ensures ExecuteQuery(store, REGISTER_QUERY, params, newId, now) == HandleInsert(store, params, newId, now)
  {
    RegisterQueryIsInsert();
  }
}
