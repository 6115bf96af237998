/**
 * Search in the DOM variant (script.js): every non-empty criterion,
 * normalised, must occur in the record's normalised field; the selection
 * is dropped when its record is filtered away.
 */
module DirectorySearch {
  import opened Wrappers
  import opened Seqs
  import opened Text

  /** A record of the DOM variant, with a text id such as `E1001`. */
  datatype Record = Record(employeeId: string, name: string, phone: string, dept: string, address: string, project: string)

  /** The raw values of the four search inputs. */
  datatype Criteria = Criteria(employeeId: string, name: string, phone: string, dept: string)

  /** The inputs after the search form's `reset()`. */
  const BlankCriteria := Criteria("", "", "", "")

  /** `normalizeString`: a missing value becomes `""`, anything else is lower-cased and trimmed. */
  function NormalizeString(v: Option<string>): (r: string)
    ensures v.None? ==> r == ""
    ensures v.Some? ==> TrimmedOf(r, ToLower(v.value))
    ensures IsLower(r)
  {
    var s := ToLower(v.GetOr(""));
    TrimCharacterized(s);
    ToLowerIdempotent(v.GetOr(""));
    TrimmedIsLower(Trim(s), s);
    Trim(s)
  }

  /** Every slice of lower-cased text is lower-cased. */
  lemma TrimmedIsLower(r: string, s: string)
    requires IsLower(s) && TrimmedOf(r, s)
    ensures IsLower(r)
  {
    var i, j :| 0 <= i <= j <= |s| && r == s[i..j];
    assert forall k :: 0 <= k < |r| ==> r[k] == s[i + k];
  }

  /** Normalising twice is normalising once. */
  lemma NormalizeIdempotent(v: Option<string>)
    ensures NormalizeString(Some(NormalizeString(v))) == NormalizeString(v)
  {
    var n := NormalizeString(v);
    assert ToLower(n) == n;
    var i, j :| 0 <= i <= j <= |ToLower(v.GetOr(""))| && n == ToLower(v.GetOr(""))[i..j]
      && (n == [] || (!IsJsWhitespace(n[0]) && !IsJsWhitespace(n[|n| - 1])));
    TrimOfTrimmed(n);
  }

  /** A value normalises to `""` exactly when it is missing or all whitespace. */
  lemma NormalizeBlankIff(v: Option<string>)
    ensures NormalizeString(v) == "" <==> v.None? || AllWhitespace(v.value)
  {
    if v.Some? {
      TrimEmptyIff(ToLower(v.value));
      forall k | 0 <= k < |v.value| ensures IsJsWhitespace(ToLower(v.value)[k]) <==> IsJsWhitespace(v.value[k]) {
        LowerKeepsWhitespace(v.value[k]);
      }
    }
  }

  /** One criterion against one field: a blank criterion matches anything. */
  predicate FieldMatches(field: string, criterion: string) {
    var c := NormalizeString(Some(criterion));
    c == "" || Contains(NormalizeString(Some(field)), c)
  }

  /** A record passes the search when each of the four fields matches its criterion. */
  predicate MatchesCriteria(e: Record, c: Criteria) {
    && FieldMatches(e.employeeId, c.employeeId)
    && FieldMatches(e.name, c.name)
    && FieldMatches(e.phone, c.phone)
    && FieldMatches(e.dept, c.dept)
  }

  /** A whitespace-only criterion imposes no constraint. */
  lemma BlankCriterionMatchesAll(field: string, criterion: string)
    requires AllWhitespace(criterion)
    ensures FieldMatches(field, criterion)
  {
    NormalizeBlankIff(Some(criterion));
  }

  /**
   * The page state of the DOM variant: all records, the shown ones, the
   * selected one, and the count the statistics line reports.
   */
  datatype DirState = DirState(employees: seq<Record>, filtered: seq<Record>, selected: Option<Record>, statsCount: nat)

  /** Some shown record carries this id. */
  predicate Shows(filtered: seq<Record>, id: string) {
    exists e :: e in filtered && e.employeeId == id
  }

  /** `clearSelection`: nothing is selected any more; the statistics line is not refreshed. */
  function ClearSelection(st: DirState): (r: DirState)
    ensures r.selected.None?
    ensures r.employees == st.employees && r.filtered == st.filtered && r.statsCount == st.statsCount
  {
    st.(selected := None)
  }

  /** A click on a table row: the record with that id, searched among all records, becomes the selection. */
  function SelectById(st: DirState, id: string): (r: DirState)
    ensures Shows(st.employees, id) ==> r.selected.Some? && r.selected.value in st.employees && r.selected.value.employeeId == id
    ensures Shows(st.employees, id) ==> exists k :: 0 <= k < |st.employees| && st.employees[k] == r.selected.value
                                          && forall j :: 0 <= j < k ==> st.employees[j].employeeId != id
    ensures !Shows(st.employees, id) ==> r == st
    ensures r.employees == st.employees && r.filtered == st.filtered && r.statsCount == st.statsCount
  {
    if Shows(st.employees, id) then
      st.(selected := Some(FirstWithId(st.employees, id)))
    else st
  }

  /** `employees.find(emp => emp.employeeId === id)` for an id that is present. */
  function FirstWithId(employees: seq<Record>, id: string): (r: Record)
    requires Shows(employees, id)
    ensures r in employees && r.employeeId == id
    ensures exists k :: 0 <= k < |employees| && employees[k] == r
                        && forall j :: 0 <= j < k ==> employees[j].employeeId != id
  {
    if employees[0].employeeId == id then employees[0]
    else
      assert Shows(employees[1..], id) by {
        var e :| e in employees && e.employeeId == id;
        assert e in employees[1..] by { assert employees == [employees[0]] + employees[1..]; }
      }
      var r := FirstWithId(employees[1..], id);
      var k :| 0 <= k < |employees[1..]| && employees[1..][k] == r
               && forall j :: 0 <= j < k ==> employees[1..][j].employeeId != id;
      assert employees[k + 1] == r;
      assert forall j :: 0 <= j < k + 1 ==> employees[j].employeeId != id by {
        forall j | 0 <= j < k + 1 ensures employees[j].employeeId != id {
          if j > 0 { assert employees[j] == employees[1..][j - 1]; }
        }
      }
      r
  }

  /** The records the criteria keep, in their original order. */
  function Matching(employees: seq<Record>, c: Criteria): (r: seq<Record>)
    ensures IsSubsequence(r, employees)
    ensures forall e :: e in r <==> e in employees && MatchesCriteria(e, c)
    ensures forall e :: multiset(r)[e] == if MatchesCriteria(e, c) then multiset(employees)[e] else 0
  {
    Filter(employees, e => MatchesCriteria(e, c))
  }

  /**
   * `filterEmployees` as the source writes it: when the selection is
   * cleared the function returns before `updateStats()`, so the
   * statistics line keeps its old count.
   */
  function FilterEmployeesAsWritten(st: DirState, c: Criteria): (r: DirState)
    ensures r.employees == st.employees
    ensures r.filtered == Matching(st.employees, c)
    ensures r.selected.Some? ==> r.selected == st.selected && Shows(r.filtered, r.selected.value.employeeId)
    ensures st.selected.Some? && r.selected.None? ==> !Shows(r.filtered, st.selected.value.employeeId)
    ensures r.selected.Some? || st.selected.None? ==> r.statsCount == |r.filtered|
    ensures r.selected.None? && st.selected.Some? ==> r.statsCount == st.statsCount
  {
    var shown := st.(filtered := Matching(st.employees, c));
    if st.selected.Some? && !Shows(shown.filtered, st.selected.value.employeeId) then ClearSelection(shown)
    else shown.(statsCount := |shown.filtered|)
  }

  /** A record and a search that does not keep it. */
  const SampleRecord := Record("E1", "a", "1", "x", "", "")
  const SampleSearch := Criteria("", "b", "", "")

  /** Text without whitespace margins normalises to its lower-cased self. */
  lemma NormalizeUntrimmed(s: string)
    requires s == [] || (!IsJsWhitespace(s[0]) && !IsJsWhitespace(s[|s| - 1]))
    ensures NormalizeString(Some(s)) == ToLower(s)
  {
    TrimLowerCommute(s);
    TrimOfTrimmed(s);
  }

  lemma SampleNormalized()
    ensures NormalizeString(Some("a")) == "a" && NormalizeString(Some("b")) == "b"
  {
    NormalizeUntrimmed("a");
    NormalizeUntrimmed("b");
    assert ToLower("a") == "a";
    assert ToLower("b") == "b";
  }

  lemma SampleNameMismatch()
    ensures !MatchesCriteria(SampleRecord, SampleSearch)
  {
    SampleNormalized();
    forall i | 0 <= i <= 1 ensures !StartsWith("a"[i..], "b") { }
    assert !FieldMatches("a", "b");
  }

  /**
   * Selecting the only record and then searching it away leaves the
   * statistics line at one record while none is shown.
   */
  lemma StaleStatsWitness()
    ensures var r := FilterEmployeesAsWritten(DirState([SampleRecord], [SampleRecord], Some(SampleRecord), 1), SampleSearch);
            r.statsCount == 1 && r.filtered == []
  {
    SampleNameMismatch();
    var m := Matching([SampleRecord], SampleSearch);
    assert SampleRecord !in m;
  }

  /**
   * `filterEmployees` with the statistics refresh on both paths: the shown
   * records are the matching ones in their original order, a selection
   * whose id is no longer shown is cleared, and the count always
   * describes what is shown.
   */
  function FilterEmployees(st: DirState, c: Criteria): (r: DirState)
    ensures r.employees == st.employees
    ensures IsSubsequence(r.filtered, st.employees)
    ensures forall e :: e in r.filtered <==> e in st.employees && MatchesCriteria(e, c)
    ensures forall e :: multiset(r.filtered)[e] == if MatchesCriteria(e, c) then multiset(st.employees)[e] else 0
    ensures r.selected.Some? ==> r.selected == st.selected && Shows(r.filtered, r.selected.value.employeeId)
    ensures st.selected.Some? && r.selected.None? ==> !Shows(r.filtered, st.selected.value.employeeId)
    ensures r.statsCount == |r.filtered|
  {
    var shown := st.(filtered := Matching(st.employees, c), statsCount := |Matching(st.employees, c)|);
    if st.selected.Some? && !Shows(shown.filtered, st.selected.value.employeeId) then ClearSelection(shown)
    else shown
  }

  /** Searching the shown records again with the same criteria shows the same records. */
  lemma FilterEmployeesIdempotent(st: DirState, c: Criteria)
    ensures Matching(FilterEmployees(st, c).filtered, c) == FilterEmployees(st, c).filtered
  {
    FilterIdempotent(st.employees, e => MatchesCriteria(e, c));
  }

  /** With only blank criteria every record is shown. */
  lemma BlankSearchShowsAll(st: DirState, c: Criteria)
    requires AllWhitespace(c.employeeId) && AllWhitespace(c.name) && AllWhitespace(c.phone) && AllWhitespace(c.dept)
    ensures FilterEmployees(st, c).filtered == st.employees
  {
    forall e ensures MatchesCriteria(e, c) {
      BlankCriterionMatchesAll(e.employeeId, c.employeeId);
      BlankCriterionMatchesAll(e.name, c.name);
      BlankCriterionMatchesAll(e.phone, c.phone);
      BlankCriterionMatchesAll(e.dept, c.dept);
    }
    FilterKeepsAll(st.employees, e => MatchesCriteria(e, c));
  }

  /** The code as written and the corrected search differ only in the count the statistics line shows. */
  lemma AsWrittenDiffersOnlyInCount(st: DirState, c: Criteria)
    ensures FilterEmployeesAsWritten(st, c).(statsCount := 0) == FilterEmployees(st, c).(statsCount := 0)
    ensures FilterEmployeesAsWritten(st, c).selected.Some? || st.selected.None? ==>
      FilterEmployeesAsWritten(st, c) == FilterEmployees(st, c)
  {
  }

  /** `resetSearch`: the form is cleared and every record is shown again; the selection stays. */
  function ResetSearch(st: DirState): (r: DirState)
    ensures r.filtered == st.employees && r.statsCount == |st.employees|
    ensures r.employees == st.employees && r.selected == st.selected
  {
    st.(filtered := st.employees, statsCount := |st.employees|)
  }

  /** Resetting shows what searching with the cleared form would show. */
  lemma ResetIsBlankSearch(st: DirState)
    ensures ResetSearch(st).filtered == FilterEmployees(st, BlankCriteria).filtered
  {
    BlankSearchShowsAll(st, BlankCriteria);
  }
}
