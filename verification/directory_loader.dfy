/**
 * Loading records in the DOM variant (script.js): the built-in offline
 * list, the two API mappings and the primary-then-offline fallback. The
 * outcome of each HTTP request is a parameter, not an effect.
 */
module DirectoryLoader {
  import opened Wrappers
  import opened Text
  import opened DirectorySearch

  /** No two records share an `employeeId`. */
  predicate UniqueEmployeeIds(employees: seq<Record>) {
    forall i, j :: 0 <= i < j < |employees| ==> employees[i].employeeId != employees[j].employeeId
  }

  /** Departments handed out in turn when a source supplies none. */
  const DeptCycle: seq<string> := ["Engineering", "HR", "Sales", "Finance", "Marketing"]

  /** The department of the record at `index` when the source gives none. */
  function DefaultDept(index: nat): (r: string)
    ensures r in DeptCycle
  {
    DeptCycle[index % 5]
  }

  /** The default departments repeat every five records. */
  lemma DefaultDeptPeriodic(index: nat)
    ensures DefaultDept(index + 5) == DefaultDept(index)
  {
  }

  /** The first five records get the five departments in order, no two alike. */
  lemma DefaultDeptFirstFive()
    ensures [DefaultDept(0), DefaultDept(1), DefaultDept(2), DefaultDept(3), DefaultDept(4)]
            == ["Engineering", "HR", "Sales", "Finance", "Marketing"]
    ensures forall i, j :: 0 <= i < j < 5 ==> DefaultDept(i) != DefaultDept(j)
  {
  }

  /**
   * `E${(index + 1).toString().padStart(4, "0")}`: the id of the record at
   * `index`. Its digits always read back as `index + 1`.
   */
  function EmployeeCode(index: nat): (r: string)
    ensures |r| >= 5 && r[0] == 'E'
    ensures AllDigits(r[1..]) && DecimalValue(r[1..]) == index + 1
    ensures |r| == 1 + (if |Decimal(index + 1)| < 4 then 4 else |Decimal(index + 1)|)
    ensures index + 1 < 10000 ==> |r| == 5
  {
    var digits := Decimal(index + 1);
    FourDigitsBelowTenThousand(index + 1);
    DecimalRoundTrip(index + 1);
    var padded := PadStart(digits, 4, '0');
    ZeroPaddingKeepsValue(digits, 4);
    assert |padded| == if |digits| < 4 then 4 else |digits|;
    var r := ['E'] + padded;
    assert |r| == 1 + |padded| && r[0] == 'E';
    assert r[1..] == padded;
    r
  }

  /** Different positions get different ids. */
  lemma EmployeeCodeInjective(i: nat, j: nat)
    requires EmployeeCode(i) == EmployeeCode(j)
    ensures i == j
  {
    assert EmployeeCode(i)[1..] == EmployeeCode(j)[1..];
  }

  /** A JavaScript-truthy string: present and not `""`. */
  predicate Given(v: Option<string>) {
    v.Some? && v.value != ""
  }

  /** `value || fallback` on an optional string: missing and `""` both give way. */
  function OrElse(v: Option<string>, fallback: string): string {
    if Given(v) then v.value else fallback
  }

  /** The parts of a DummyJSON user the mapping reads. */
  datatype DummyCompany = DummyCompany(department: Option<string>, name: Option<string>)
  datatype DummyAddress = DummyAddress(address: Option<string>, city: Option<string>)
  datatype DummyUser = DummyUser(
    firstName: string, lastName: string, phone: Option<string>,
    company: Option<DummyCompany>, address: Option<DummyAddress>)

  /** `user.company?.department` and `user.company?.name`. */
  function CompanyDepartment(u: DummyUser): Option<string> {
    if u.company.Some? then u.company.value.department else None
  }

  function CompanyName(u: DummyUser): Option<string> {
    if u.company.Some? then u.company.value.name else None
  }

  /**
   * The record made from the DummyJSON user at `index`: a missing or empty
   * phone, department or company name gives way to `N/A`, the cycled
   * department and `Project <index + 1>`; an address object becomes its
   * street and city joined by `, ` and trimmed.
   */
  function FromDummyUser(u: DummyUser, index: nat): (r: Record)
    ensures r.employeeId == EmployeeCode(index)
    ensures r.name == u.firstName + " " + u.lastName
    ensures Given(u.phone) ==> r.phone == u.phone.value
    ensures !Given(u.phone) ==> r.phone == "N/A"
    ensures Given(CompanyDepartment(u)) ==> r.dept == CompanyDepartment(u).value
    ensures !Given(CompanyDepartment(u)) ==> r.dept == DefaultDept(index)
    ensures u.address.None? ==> r.address == "N/A"
    ensures u.address.Some? ==>
      TrimmedOf(r.address, OrElse(u.address.value.address, "") + ", " + OrElse(u.address.value.city, ""))
    ensures Given(CompanyName(u)) ==> r.project == CompanyName(u).value
    ensures !Given(CompanyName(u)) ==> r.project == "Project " + Decimal(index + 1)
  {
    var address :=
      if u.address.Some? then
        var joined := OrElse(u.address.value.address, "") + ", " + OrElse(u.address.value.city, "");
        TrimCharacterized(joined);
        Trim(joined)
      else "N/A";
    Record(
      EmployeeCode(index),
      u.firstName + " " + u.lastName,
      OrElse(u.phone, "N/A"),
      OrElse(CompanyDepartment(u), DefaultDept(index)),
      address,
      OrElse(CompanyName(u), "Project " + Decimal(index + 1)))
  }

  /** `data.users.map(...)`: one record per user, numbered from `E0001`. */
  function MapDummyUsers(users: seq<DummyUser>): (r: seq<Record>)
    ensures |r| == |users|
    ensures forall i :: 0 <= i < |r| ==> r[i] == FromDummyUser(users[i], i)
    ensures forall i :: 0 <= i < |r| ==> r[i].employeeId == EmployeeCode(i)
    ensures forall i :: 0 <= i < |r| ==> r[i].name == users[i].firstName + " " + users[i].lastName
    ensures forall i :: 0 <= i < |r| ==>
      r[i].dept == if Given(CompanyDepartment(users[i])) then CompanyDepartment(users[i]).value else DeptCycle[i % 5]
    ensures UniqueEmployeeIds(r)
  {
    var r := seq(|users|, i requires 0 <= i < |users| => FromDummyUser(users[i], i));
    assert UniqueEmployeeIds(r) by {
      forall i, j | 0 <= i < j < |r| ensures r[i].employeeId != r[j].employeeId {
        assert DecimalValue(r[i].employeeId[1..]) != DecimalValue(r[j].employeeId[1..]);
      }
    }
    r
  }

  /** The parts of a JSONPlaceholder user the mapping reads. */
  datatype PlaceholderUser = PlaceholderUser(name: string, phone: string, street: string, city: string, companyName: string)

  /** How many JSONPlaceholder users are kept. */
  const PlaceholderLimit: nat := 10

  /** The record made from the JSONPlaceholder user at `index`; its department is always the cycled one. */
  function FromPlaceholderUser(u: PlaceholderUser, index: nat): (r: Record)
    ensures r.employeeId == EmployeeCode(index) && r.name == u.name && r.phone == u.phone
    ensures r.dept == DefaultDept(index)
    ensures r.address == u.street + ", " + u.city && r.project == u.companyName
  {
    Record(EmployeeCode(index), u.name, u.phone, DefaultDept(index), u.street + ", " + u.city, u.companyName)
  }

  /** `users.slice(0, 10).map(...)`: one record for each of the first ten users. */
  function MapPlaceholderUsers(users: seq<PlaceholderUser>): (r: seq<Record>)
    ensures |r| == if |users| < PlaceholderLimit then |users| else PlaceholderLimit
    ensures forall i :: 0 <= i < |r| ==> r[i].employeeId == EmployeeCode(i)
    ensures forall i :: 0 <= i < |r| ==> r[i].name == users[i].name && r[i].phone == users[i].phone
    ensures forall i :: 0 <= i < |r| ==> r[i].dept == DeptCycle[i % 5]
    ensures forall i :: 0 <= i < |r| ==> r[i] == FromPlaceholderUser(users[i], i)
    ensures UniqueEmployeeIds(r)
  {
    var kept := if |users| < PlaceholderLimit then users else users[..PlaceholderLimit];
    var r := seq(|kept|, i requires 0 <= i < |kept| => FromPlaceholderUser(kept[i], i));
    assert UniqueEmployeeIds(r) by {
      forall i, j | 0 <= i < j < |r| ensures r[i].employeeId != r[j].employeeId {
        assert DecimalValue(r[i].employeeId[1..]) != DecimalValue(r[j].employeeId[1..]);
      }
    }
    r
  }

  /** `OFFLINE_EMPLOYEES`: the built-in list that always loads. */
  const OfflineEmployees: seq<Record> := [
    Record("E1001", "Aisha Kumar", "9876543210", "Engineering", "12 MG Road, Bengaluru, Karnataka 560001", "Phoenix Web Platform"),
    Record("E1002", "Rahul Verma", "9876501234", "Engineering", "Plot 21, Hinjewadi, Pune, Maharashtra 411057", "Orion Mobile App"),
    Record("E1003", "Meera Iyer", "9833011122", "HR", "Andheri East, Mumbai, Maharashtra 400069", "PeopleOps Portal"),
    Record("E1004", "Arjun Singh", "9810012345", "Sales", "Sector 62, Noida, Uttar Pradesh 201309", "NorthStar CRM"),
    Record("E1005", "Pooja Shah", "9820098200", "Finance", "SG Highway, Ahmedabad, Gujarat 380015", "LedgerX Analytics"),
    Record("E1006", "Vikram Rao", "9971997199", "Engineering", "Madhapur, Hyderabad, Telangana 500081", "Atlas Cloud Services"),
    Record("E1007", "Sneha Patel", "9898989898", "Marketing", "Koramangala, Bengaluru, Karnataka 560034", "Brand Vision Campaign"),
    Record("E1008", "Rajesh Gupta", "9123456789", "Engineering", "Salt Lake, Kolkata, West Bengal 700091", "DataFlow Engine"),
    Record("E1009", "Priya Reddy", "9444555666", "Design", "T. Nagar, Chennai, Tamil Nadu 600017", "UI/UX Revamp"),
    Record("E1010", "Amit Sharma", "9191919191", "Operations", "Connaught Place, New Delhi 110001", "Process Optimization"),
    Record("E1011", "Neha Singh", "9888888888", "HR", "Cyber City, Gurgaon, Haryana 122002", "Talent Acquisition Portal"),
    Record("E1012", "Karan Mehta", "9777777777", "Finance", "Bandra West, Mumbai, Maharashtra 400050", "Budget Management System")
  ]

  /** The offline list is non-empty and its ids are unique. */
  lemma OfflineEmployeesWellFormed()
    ensures |OfflineEmployees| == 12
    ensures UniqueEmployeeIds(OfflineEmployees)
  {
    var ids := ["E1001", "E1002", "E1003", "E1004", "E1005", "E1006",
                "E1007", "E1008", "E1009", "E1010", "E1011", "E1012"];
    assert forall i :: 0 <= i < 12 ==> OfflineEmployees[i].employeeId == ids[i];
    assert forall i :: 0 <= i < 12 ==> |ids[i]| == 5 && (ids[i][3] as int - 48) * 10 + (ids[i][4] as int - 48) == i + 1;
  }

  /** A request's outcome: the parsed body of a 2xx response, or any failure. */
  datatype Fetch<T> = Fetched(body: T) | FetchFailed

  /** The value of `DATA_CONFIG.source` the page ships with. */
  const ConfiguredSource := "api-dummyjson"

  /** What the configured primary loader did: there was none, it threw, or it produced records. */
  datatype PrimaryOutcome = NoLoader | LoaderFailed | LoaderProduced(employees: seq<Record>)

  /** Looks the source up among the three loaders and runs the one found. */
  function RunPrimary(source: string, dummy: Fetch<seq<DummyUser>>, placeholder: Fetch<seq<PlaceholderUser>>): (r: PrimaryOutcome)
    ensures r.LoaderProduced? ==> UniqueEmployeeIds(r.employees)
    ensures source == "offline" ==> r == LoaderProduced(OfflineEmployees)
    ensures source == "api-dummyjson" && dummy.FetchFailed? ==> r == LoaderFailed
    ensures source == "api-dummyjson" && dummy.Fetched? ==> r == LoaderProduced(MapDummyUsers(dummy.body))
    ensures source == "api-jsonplaceholder" && placeholder.FetchFailed? ==> r == LoaderFailed
    ensures source == "api-jsonplaceholder" && placeholder.Fetched? ==>
      r == LoaderProduced(MapPlaceholderUsers(placeholder.body))
    ensures source != "offline" && source != "api-dummyjson" && source != "api-jsonplaceholder" ==> r == NoLoader
  {
    if source == "offline" then
      OfflineEmployeesWellFormed();
      LoaderProduced(OfflineEmployees)
    else if source == "api-dummyjson" then
      match dummy
      case Fetched(users) => LoaderProduced(MapDummyUsers(users))
      case FetchFailed => LoaderFailed
    else if source == "api-jsonplaceholder" then
      match placeholder
      case Fetched(users) => LoaderProduced(MapPlaceholderUsers(users))
      case FetchFailed => LoaderFailed
    else NoLoader
  }

  /** Where the records on the page came from. */
  datatype LoadStatus = FromPrimary | OfflineFallback | NothingLoaded

  datatype Loaded = Loaded(employees: seq<Record>, filtered: seq<Record>, status: LoadStatus)

  /**
   * `loadEmployeeData`: the primary loader's records when it produced any
   * list; the offline list when an `api-` source failed or has no loader;
   * otherwise the initial empty lists.
   */
  function LoadEmployeeData(source: string, dummy: Fetch<seq<DummyUser>>, placeholder: Fetch<seq<PlaceholderUser>>): (r: Loaded)
    ensures r.filtered == r.employees
    ensures UniqueEmployeeIds(r.employees)
    ensures RunPrimary(source, dummy, placeholder).LoaderProduced? ==>
      r.employees == RunPrimary(source, dummy, placeholder).employees && r.status == FromPrimary
    ensures source == "api-dummyjson" && dummy.Fetched? ==> r.employees == MapDummyUsers(dummy.body)
    ensures source == "api-jsonplaceholder" && placeholder.Fetched? ==> r.employees == MapPlaceholderUsers(placeholder.body)
    ensures source == "offline" ==> r.employees == OfflineEmployees && r.status == FromPrimary
    ensures StartsWith(source, "api-") && !RunPrimary(source, dummy, placeholder).LoaderProduced? ==>
      r.employees == OfflineEmployees && r.status == OfflineFallback
    ensures StartsWith(source, "api-") ==> r.status != NothingLoaded
    ensures r.status == NothingLoaded <==> RunPrimary(source, dummy, placeholder).NoLoader? && !StartsWith(source, "api-")
    ensures r.status == NothingLoaded ==> r.employees == []
    ensures r.employees == [] ==> r.status == NothingLoaded || r.status == FromPrimary
  {
    OfflineEmployeesWellFormed();
    match RunPrimary(source, dummy, placeholder)
    case LoaderProduced(employees) => Loaded(employees, employees, FromPrimary)
    case _ =>
      if StartsWith(source, "api-") then Loaded(OfflineEmployees, OfflineEmployees, OfflineFallback)
      else Loaded([], [], NothingLoaded)
  }

  /** Whenever an `api-` source fails, the page ends up with a non-empty list with unique ids. */
  lemma ApiFailureFallsBack(source: string, dummy: Fetch<seq<DummyUser>>, placeholder: Fetch<seq<PlaceholderUser>>)
    requires StartsWith(source, "api-")
    requires !RunPrimary(source, dummy, placeholder).LoaderProduced?
    ensures LoadEmployeeData(source, dummy, placeholder).employees != []
    ensures UniqueEmployeeIds(LoadEmployeeData(source, dummy, placeholder).employees)
  {
    OfflineEmployeesWellFormed();
  }

  /** With the shipped configuration a failed DummyJSON request falls back to the offline list. */
  lemma ConfiguredSourceFallsBack(placeholder: Fetch<seq<PlaceholderUser>>)
    ensures LoadEmployeeData(ConfiguredSource, FetchFailed, placeholder).employees == OfflineEmployees
  {
    assert StartsWith(ConfiguredSource, "api-");
  }
}
