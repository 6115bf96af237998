/**
 * The employees store of the single-page variant (app.js, `employeesModule`):
 * the record sequence, its search filters, the derived getters and the
 * add/update/delete mutations, as pure functions from old state to new.
 */
module EmployeesStore {
  import opened Wrappers
  import opened Seqs
  import opened Text
  import opened StringOrder

  /** A stored record: a numeric id and five text fields. */
  datatype Employee = Employee(id: int, name: string, phone: string, dept: string, address: string, project: string)

  /** The employee form: every field of a record except its id. */
  datatype Draft = Draft(name: string, phone: string, dept: string, address: string, project: string)

  /** `{ ...draft, id }`: a record made from the form and an id. */
  function FromDraft(d: Draft, id: int): Employee {
    Employee(id, d.name, d.phone, d.dept, d.address, d.project)
  }

  /** The four search fields; `""` means "no constraint". */
  datatype SearchFilters = SearchFilters(employeeId: string, name: string, phone: string, dept: string)

  /** The filters after `CLEAR_SEARCH_FILTERS` (and at start-up). */
  const NoFilters := SearchFilters("", "", "", "")

  /** No two records share an id. */
  predicate UniqueIds(employees: seq<Employee>) {
    forall i, j :: 0 <= i < j < |employees| ==> employees[i].id != employees[j].id
  }

  /**
   * The match policy of the `filteredEmployees` getter: the id's decimal
   * text contains the id filter, the lower-cased name contains the
   * lower-cased name filter, the phone contains the phone filter with case
   * kept, and the department equals the department filter exactly.
   */
  predicate MatchesFilters(e: Employee, f: SearchFilters): (r: bool)
    ensures f == NoFilters ==> r
    ensures r && f.dept != "" ==> e.dept == f.dept
    ensures r && f.phone != "" ==> |f.phone| <= |e.phone|
    ensures f.name != "" && !Contains(ToLower(e.name), ToLower(f.name)) ==> !r
  {
    && (f.employeeId == "" || Contains(IntText(e.id), f.employeeId))
    && (f.name == "" || Contains(ToLower(e.name), ToLower(f.name)))
    && (f.phone == "" || Contains(e.phone, f.phone))
    && (f.dept == "" || e.dept == f.dept)
  }

  /** The `filteredEmployees` getter. */
  function FilteredEmployees(employees: seq<Employee>, f: SearchFilters): (r: seq<Employee>)
    ensures IsSubsequence(r, employees)
    ensures forall e :: e in r <==> e in employees && MatchesFilters(e, f)
    ensures forall e :: multiset(r)[e] == if MatchesFilters(e, f) then multiset(employees)[e] else 0
  {
    Filter(employees, e => MatchesFilters(e, f))
  }

  /** With every filter empty the getter returns the whole sequence. */
  lemma NoFiltersKeepAll(employees: seq<Employee>)
    ensures FilteredEmployees(employees, NoFilters) == employees
  {
    FilterKeepsAll(employees, e => MatchesFilters(e, NoFilters));
  }

  /** A non-empty department filter keeps exactly the records of that department, nothing near it. */
  lemma DeptFilterIsExact(employees: seq<Employee>, f: SearchFilters, e: Employee)
    requires f.dept != "" && e in FilteredEmployees(employees, f)
    ensures e.dept == f.dept
  {
  }

  /** The name filter ignores ASCII case on both sides. */
  lemma NameFilterIgnoresCase(e: Employee, f: SearchFilters)
    ensures MatchesFilters(e, f) <==> MatchesFilters(e.(name := ToLower(e.name)), f.(name := ToLower(f.name)))
  {
    ToLowerIdempotent(e.name);
    ToLowerIdempotent(f.name);
  }

  /** Filtering the filtered sequence again with the same filters changes nothing. */
  lemma FilteredIdempotent(employees: seq<Employee>, f: SearchFilters)
    ensures FilteredEmployees(FilteredEmployees(employees, f), f) == FilteredEmployees(employees, f)
  {
    FilterIdempotent(employees, e => MatchesFilters(e, f));
  }

  /** The `departments` getter: the distinct departments, sorted as JavaScript sorts strings. */
  function Departments(employees: seq<Employee>): (r: seq<string>)
    ensures StrictlySorted(r) && Distinct(r)
    ensures forall d :: d in r <==> exists e :: e in employees && e.dept == d
  {
    var depts := seq(|employees|, i requires 0 <= i < |employees| => employees[i].dept);
    assert forall e :: e in employees ==> e.dept in depts by {
      forall e | e in employees ensures e.dept in depts {
        var i :| 0 <= i < |employees| && employees[i] == e;
        assert depts[i] == e.dept;
      }
    }
    SortedDistinct(SortedSet(depts));
    SortedSet(depts)
  }

  /** Any sorted duplicate-free list of exactly the departments present is the getter's list. */
  lemma DepartmentsCanonical(employees: seq<Employee>, r: seq<string>)
    requires StrictlySorted(r)
    requires forall d :: d in r <==> exists e :: e in employees && e.dept == d
    ensures r == Departments(employees)
  {
    SortedUnique(r, Departments(employees));
  }

  /** `findIndex(emp => emp.id === id)`: the first position holding `id`. */
  function FindIndexById(employees: seq<Employee>, id: int): (r: Option<nat>)
    ensures r.None? <==> forall i :: 0 <= i < |employees| ==> employees[i].id != id
    ensures r.Some? ==> r.value < |employees| && employees[r.value].id == id
    ensures r.Some? ==> forall j :: 0 <= j < r.value ==> employees[j].id != id
  {
    if employees == [] then None
    else if employees[0].id == id then Some(0)
    else match FindIndexById(employees[1..], id)
      case None => None
      case Some(k) => Some(k + 1)
  }

  /** The `getEmployeeById` getter: the first record with that id, if any. */
  function GetEmployeeById(employees: seq<Employee>, id: int): (r: Option<Employee>)
    ensures r.None? <==> forall e :: e in employees ==> e.id != id
    ensures r.Some? ==> r.value in employees && r.value.id == id
    ensures r.Some? ==> exists k :: 0 <= k < |employees| && employees[k] == r.value
                          && forall j :: 0 <= j < k ==> employees[j].id != id
  {
    match FindIndexById(employees, id)
    case None => None
    case Some(k) => Some(employees[k])
  }

  /** `Math.max(...employees.map(emp => emp.id), 100)`. */
  function MaxId(employees: seq<Employee>): (r: int)
    ensures r >= 100
    ensures forall e :: e in employees ==> e.id <= r
    ensures r == 100 || exists e :: e in employees && e.id == r
  {
    if employees == [] then 100
    else
      var m := MaxId(employees[1..]);
      assert employees == [employees[0]] + employees[1..];
      if employees[0].id > m then employees[0].id else m
  }

  /** The new record an `addEmployee` action appended, and the sequence after it. */
  datatype Added = Added(employees: seq<Employee>, employee: Employee)

  /**
   * The `addEmployee` action with its `ADD_EMPLOYEE` commit: the draft gets
   * one more than the largest id (at least 100) and is pushed at the end.
   */
  function AddEmployee(employees: seq<Employee>, d: Draft): (r: Added)
    ensures r.employees == employees + [r.employee]
    ensures r.employee == FromDraft(d, r.employee.id)
    ensures r.employee.id > 100
    ensures employees == [] ==> r.employee.id == 101
    ensures forall e :: e in employees ==> e.id < r.employee.id
    ensures r.employee.id == 101 || exists e :: e in employees && e.id + 1 == r.employee.id
  {
    var e := FromDraft(d, MaxId(employees) + 1);
    Added(employees + [e], e)
  }

  /** The `UPDATE_EMPLOYEE` mutation: the first record with the same id is replaced. */
  function UpdateEmployee(employees: seq<Employee>, u: Employee): (r: seq<Employee>)
    ensures |r| == |employees|
    ensures forall i :: 0 <= i < |r| ==>
      r[i] == if employees[i].id == u.id && (forall j :: 0 <= j < i ==> employees[j].id != u.id) then u else employees[i]
  {
    match FindIndexById(employees, u.id)
    case None => employees
    case Some(k) => employees[k := u]
  }

  /** Updating an id no record has changes nothing. */
  lemma UpdateAbsentIsNoOp(employees: seq<Employee>, u: Employee)
    requires forall e :: e in employees ==> e.id != u.id
    ensures UpdateEmployee(employees, u) == employees
  {
    var r := UpdateEmployee(employees, u);
    forall i | 0 <= i < |r| ensures r[i] == employees[i] {
      assert employees[i] in employees;
    }
  }

  /** After an update of a present id, looking that id up yields the new record. */
  lemma UpdateThenGet(employees: seq<Employee>, u: Employee)
    requires exists e :: e in employees && e.id == u.id
    ensures GetEmployeeById(UpdateEmployee(employees, u), u.id) == Some(u)
  {
    var r := UpdateEmployee(employees, u);
    var k := FindIndexById(employees, u.id).value;
    assert r[k] == u;
    assert r[k].id == u.id;
    forall j | 0 <= j < k ensures r[j].id != u.id {
      assert r[j] == employees[j];
    }
  }

  /** Updating keeps ids unique: the replaced position keeps its id. */
  lemma UpdateKeepsUniqueIds(employees: seq<Employee>, u: Employee)
    requires UniqueIds(employees)
    ensures UniqueIds(UpdateEmployee(employees, u))
  {
    var r := UpdateEmployee(employees, u);
    forall i, j | 0 <= i < j < |r| ensures r[i].id != r[j].id {
      assert r[i].id == employees[i].id && r[j].id == employees[j].id;
    }
  }

  /** The `DELETE_EMPLOYEE` mutation: every record with that id is dropped. */
  function DeleteEmployee(employees: seq<Employee>, id: int): (r: seq<Employee>)
    ensures forall e :: e in r ==> e.id != id
    ensures IsSubsequence(r, employees)
    ensures forall e: Employee :: e.id != id ==> multiset(r)[e] == multiset(employees)[e]
    ensures |r| <= |employees|
  {
    Filter(employees, (e: Employee) => e.id != id)
  }

  /** Deleting an id no record has changes nothing. */
  lemma DeleteAbsentIsNoOp(employees: seq<Employee>, id: int)
    requires forall e :: e in employees ==> e.id != id
    ensures DeleteEmployee(employees, id) == employees
  {
    FilterKeepsAll(employees, (e: Employee) => e.id != id);
  }

  /** Deleting a present id shortens the sequence, and the id can no longer be found. */
  lemma DeletePresentShrinks(employees: seq<Employee>, id: int)
    requires exists e :: e in employees && e.id == id
    ensures |DeleteEmployee(employees, id)| < |employees|
    ensures GetEmployeeById(DeleteEmployee(employees, id), id) == None
  {
    var e :| e in employees && e.id == id;
    FilterDropsRejected(employees, (x: Employee) => x.id != id, e);
  }

  /** Dropping records never makes two ids collide. */
  lemma {:induction false} FilterKeepsUniqueIds(employees: seq<Employee>, p: Employee -> bool)
    requires UniqueIds(employees)
    ensures UniqueIds(Filter(employees, p))
  {
    if employees != [] {
      var t := employees[1..];
      assert UniqueIds(t) by {
        forall i, j | 0 <= i < j < |t| ensures t[i].id != t[j].id {
          assert t[i] == employees[i + 1] && t[j] == employees[j + 1];
        }
      }
      FilterKeepsUniqueIds(t, p);
      if p(employees[0]) {
        var r := [employees[0]] + Filter(t, p);
        forall i, j | 0 <= i < j < |r| ensures r[i].id != r[j].id {
          if i == 0 {
            assert r[j] in t;
            var k :| 0 <= k < |t| && t[k] == r[j];
            assert t[k] == employees[k + 1];
          }
        }
      }
    }
  }

  lemma DeleteKeepsUniqueIds(employees: seq<Employee>, id: int)
    requires UniqueIds(employees)
    ensures UniqueIds(DeleteEmployee(employees, id))
  {
    FilterKeepsUniqueIds(employees, (e: Employee) => e.id != id);
  }

  /** Adding keeps ids unique, and the new record can be looked up by its id. */
  lemma AddKeepsUniqueIds(employees: seq<Employee>, d: Draft)
    requires UniqueIds(employees)
    ensures UniqueIds(AddEmployee(employees, d).employees)
    ensures GetEmployeeById(AddEmployee(employees, d).employees, AddEmployee(employees, d).employee.id)
            == Some(AddEmployee(employees, d).employee)
  {
    var a := AddEmployee(employees, d);
    var r := a.employees;
    forall i, j | 0 <= i < j < |r| ensures r[i].id != r[j].id {
      if j == |employees| {
        assert r[i] in employees;
      } else {
        assert r[i] == employees[i] && r[j] == employees[j];
      }
    }
    assert r[|employees|].id == a.employee.id;
    forall j | 0 <= j < |employees| ensures r[j].id != a.employee.id {
      assert r[j] in employees;
    }
  }

  /** A partial set of search filters: `None` marks a key the patch does not mention. */
  datatype FilterPatch = FilterPatch(employeeId: Option<string>, name: Option<string>, phone: Option<string>, dept: Option<string>)

  const EmptyPatch := FilterPatch(None, None, None, None)

  /** A patch that mentions all four keys, as the search form's watcher sends. */
  function FullPatch(f: SearchFilters): FilterPatch {
    FilterPatch(Some(f.employeeId), Some(f.name), Some(f.phone), Some(f.dept))
  }

  /** The `UPDATE_SEARCH_FILTERS` mutation: `{ ...filters, ...patch }`. */
  function UpdateSearchFilters(f: SearchFilters, p: FilterPatch): (r: SearchFilters)
    ensures p.employeeId.None? ==> r.employeeId == f.employeeId
    ensures p.name.None? ==> r.name == f.name
    ensures p.phone.None? ==> r.phone == f.phone
    ensures p.dept.None? ==> r.dept == f.dept
    ensures p.employeeId.Some? ==> r.employeeId == p.employeeId.value
    ensures p.name.Some? ==> r.name == p.name.value
    ensures p.phone.Some? ==> r.phone == p.phone.value
    ensures p.dept.Some? ==> r.dept == p.dept.value
  {
    SearchFilters(p.employeeId.GetOr(f.employeeId), p.name.GetOr(f.name),
                  p.phone.GetOr(f.phone), p.dept.GetOr(f.dept))
  }

  /** `{ ...p, ...q }` on patches: the later patch wins where it mentions a key. */
  function Overlay(p: FilterPatch, q: FilterPatch): FilterPatch {
    FilterPatch(if q.employeeId.Some? then q.employeeId else p.employeeId,
                if q.name.Some? then q.name else p.name,
                if q.phone.Some? then q.phone else p.phone,
                if q.dept.Some? then q.dept else p.dept)
  }

  /** Two merges in a row are one merge of the overlaid patches (last writer wins). */
  lemma MergeComposes(f: SearchFilters, p: FilterPatch, q: FilterPatch)
    ensures UpdateSearchFilters(UpdateSearchFilters(f, p), q) == UpdateSearchFilters(f, Overlay(p, q))
  {
  }

  /** Merging the same patch twice is merging it once; the empty patch changes nothing; a full patch replaces all. */
  lemma MergeLaws(f: SearchFilters, p: FilterPatch, g: SearchFilters)
    ensures UpdateSearchFilters(UpdateSearchFilters(f, p), p) == UpdateSearchFilters(f, p)
    ensures UpdateSearchFilters(f, EmptyPatch) == f
    ensures UpdateSearchFilters(f, FullPatch(g)) == g
  {
  }

  /** The `CLEAR_SEARCH_FILTERS` mutation. */
  function ClearSearchFilters(): (r: SearchFilters)
    ensures r.employeeId == "" && r.name == "" && r.phone == "" && r.dept == ""
    ensures forall e :: MatchesFilters(e, r)
  {
    NoFilters
  }

  /** After clearing the filters, the filtered getter shows every record. */
  lemma ClearedFiltersShowAll(employees: seq<Employee>)
    ensures FilteredEmployees(employees, ClearSearchFilters()) == employees
  {
    NoFiltersKeepAll(employees);
  }

  /** The sample data the store is seeded with when nothing was saved. */
  const InitialEmployees: seq<Employee> := [
    Employee(101, "Aarav Sharma", "9876543210", "Engineering", "12 MG Road, Bengaluru", "Phoenix"),
    Employee(102, "Priya Patel", "9811122233", "QA", "220 Aundh, Pune", "Aurora"),
    Employee(103, "Rohit Kumar", "9822233344", "Engineering", "55 Andheri, Mumbai", "Zephyr"),
    Employee(104, "Neha Verma", "9899988776", "HR", "Sector 18, Noida", "Onboarding"),
    Employee(105, "Vikram Singh", "9877700011", "Support", "Charminar, Hyderabad", "Nimbus"),
    Employee(106, "Anita Desai", "9834567890", "Marketing", "Fort, Mumbai", "Brand Campaign"),
    Employee(107, "Ravi Gupta", "9845678901", "Engineering", "Koramangala, Bengaluru", "Quantum"),
    Employee(108, "Kavya Nair", "9856789012", "QA", "Infopark, Kochi", "Testing Suite")
  ]

  /** The seed's ids run from 101 to 108 in order. */
  lemma InitialIdsConsecutive()
    ensures |InitialEmployees| == 8
    ensures forall i :: 0 <= i < |InitialEmployees| ==> InitialEmployees[i].id == 101 + i
  {
  }

  lemma InitialUniqueIds()
    ensures UniqueIds(InitialEmployees)
  {
    InitialIdsConsecutive();
  }

  lemma InitialMaxIdAtLeast()
    ensures MaxId(InitialEmployees) >= 108
  {
    InitialIdsConsecutive();
    assert InitialEmployees[7] in InitialEmployees;
  }

  lemma InitialMaxIdAtMost()
    ensures MaxId(InitialEmployees) <= 108
  {
    InitialIdsConsecutive();
    forall e | e in InitialEmployees ensures e.id <= 108 {
      var i :| 0 <= i < |InitialEmployees| && InitialEmployees[i] == e;
    }
  }

  /** Adding to the seed hands out id 109. */
  lemma InitialNextId(d: Draft)
    ensures AddEmployee(InitialEmployees, d).employee.id == 109
  {
    InitialMaxIdAtLeast();
    InitialMaxIdAtMost();
  }

  const InitialDeptNames: seq<string> := ["Engineering", "HR", "Marketing", "QA", "Support"]

  lemma InitialDeptNamesSorted()
    ensures StrictlySorted(InitialDeptNames)
  {
    var want := InitialDeptNames;
    assert StrLess(want[0], want[1]) && StrLess(want[1], want[2]);
    assert StrLess(want[2], want[3]) && StrLess(want[3], want[4]);
    forall i, j | 0 <= i < j < |want| ensures StrLess(want[i], want[j]) {
      SortedStep(want, i, j);
    }
  }

  lemma InitialDeptNamesPresent()
    ensures forall d :: d in InitialDeptNames <==> exists e :: e in InitialEmployees && e.dept == d
  {
    var want := InitialDeptNames;
    forall d | d in want ensures exists e :: e in InitialEmployees && e.dept == d {
      var i :| 0 <= i < |want| && want[i] == d;
      var k := [0, 3, 5, 1, 4][i];
      assert InitialEmployees[k] in InitialEmployees;
    }
    forall e | e in InitialEmployees ensures e.dept in want {
      var i :| 0 <= i < |InitialEmployees| && InitialEmployees[i] == e;
      if i == 0 || i == 2 || i == 6 { assert e.dept == want[0]; }
      else if i == 1 || i == 7 { assert e.dept == want[3]; }
      else if i == 3 { assert e.dept == want[1]; }
      else if i == 4 { assert e.dept == want[4]; }
      else { assert e.dept == want[2]; }
    }
  }

  /** The seed's departments getter lists five names in JavaScript sort order. */
  lemma InitialDepartments()
    ensures Departments(InitialEmployees) == InitialDeptNames
  {
    InitialDeptNamesSorted();
    InitialDeptNamesPresent();
    DepartmentsCanonical(InitialEmployees, InitialDeptNames);
  }

  lemma SortedStep(s: seq<string>, i: nat, j: nat)
    requires forall k :: 0 <= k < |s| - 1 ==> StrLess(s[k], s[k + 1])
    requires i < j < |s|
    ensures StrLess(s[i], s[j])
    decreases j - i
  {
    if j > i + 1 {
      SortedStep(s, i, j - 1);
      StrLessTransitive(s[i], s[j - 1], s[j]);
    }
  }
}
