/**
 * The component methods of the single-page variant (app.js, `setup`):
 * form validation, submitting the form as an add or an update, and
 * deleting a record after confirmation. Each user action is modelled by
 * the state it settles in; the simulated delays and the loading flag's
 * intermediate value are not modelled.
 */
module EmployeeApp {
  import opened Wrappers
  import opened Seqs
  import opened Text
  import opened EmployeesStore
  import opened UiStore

  /** The rule that rejected a form, in the order the rules are checked. */
  datatype FormError =
    | NameRequired
    | PhoneRequired
    | PhoneInvalid
    | DeptRequired
    | AddressRequired
    | ProjectRequired
  {
    /** The alert shown for this rule. */
    function Message(): string {
      match this
      case NameRequired => "Name is required"
      case PhoneRequired => "Phone number is required"
      case PhoneInvalid => "Please enter a valid 10-digit phone number"
      case DeptRequired => "Department is required"
      case AddressRequired => "Address is required"
      case ProjectRequired => "Project is required"
    }

    /** Position of the rule in the checking order. */
    function Rank(): nat {
      match this
      case NameRequired => 0
      case PhoneRequired => 1
      case PhoneInvalid => 2
      case DeptRequired => 3
      case AddressRequired => 4
      case ProjectRequired => 5
    }
  }

  datatype Validation = Valid | Invalid(error: FormError)

  predicate NonBlank(s: string) {
    Trim(s) != ""
  }

  /** `/^\d+$/` on the trimmed phone, with exactly ten characters. */
  predicate IsTenDigitPhone(phone: string) {
    |Trim(phone)| == 10 && AllDigits(Trim(phone))
  }

  /** The outcome of each rule on one form, in checking order. */
  datatype RuleOutcomes = RuleOutcomes(
    nameGiven: bool, phoneGiven: bool, phoneWellFormed: bool,
    deptGiven: bool, addressGiven: bool, projectGiven: bool)
  {
    /** Whether rule `k` of the checking order passes. */
    predicate Passes(k: nat) {
      if k == 0 then nameGiven
      else if k == 1 then phoneGiven
      else if k == 2 then phoneWellFormed
      else if k == 3 then deptGiven
      else if k == 4 then addressGiven
      else if k == 5 then projectGiven
      else true
    }

    predicate AllPass() {
      nameGiven && phoneGiven && phoneWellFormed && deptGiven && addressGiven && projectGiven
    }
  }

  function Outcomes(d: Draft): RuleOutcomes {
    RuleOutcomes(NonBlank(d.name), NonBlank(d.phone), IsTenDigitPhone(d.phone),
                 d.dept != "", NonBlank(d.address), NonBlank(d.project))
  }

  /** The form is acceptable, independent of any checking order. */
  predicate FormAcceptable(d: Draft) {
    && NonBlank(d.name) && IsTenDigitPhone(d.phone) && d.dept != ""
    && NonBlank(d.address) && NonBlank(d.project)
  }

  /**
   * The short-circuit decision: the first failing rule is reported, and
   * the form is accepted exactly when all rules pass.
   */
  function FirstFailure(o: RuleOutcomes): (r: Validation)
    ensures r.Valid? <==> o.AllPass()
    ensures r.Invalid? ==> !o.Passes(r.error.Rank())
    ensures r.Invalid? ==> forall k :: 0 <= k < r.error.Rank() ==> o.Passes(k)
  {
    if !o.nameGiven then Invalid(NameRequired)
    else if !o.phoneGiven then Invalid(PhoneRequired)
    else if !o.phoneWellFormed then Invalid(PhoneInvalid)
    else if !o.deptGiven then Invalid(DeptRequired)
    else if !o.addressGiven then Invalid(AddressRequired)
    else if !o.projectGiven then Invalid(ProjectRequired)
    else Valid
  }

  /**
   * `validateForm`: checks the rules in order and reports the first one
   * that fails; accepts exactly the acceptable forms.
   */
  function ValidateForm(d: Draft): (r: Validation)
    ensures r.Valid? <==> FormAcceptable(d)
    ensures r.Invalid? ==> !Outcomes(d).Passes(r.error.Rank())
    ensures r.Invalid? ==> forall k :: 0 <= k < r.error.Rank() ==> Outcomes(d).Passes(k)
  {
    FirstFailure(Outcomes(d))
  }

  /** Distinct rules report distinct messages. */
  lemma MessagesDistinct(a: FormError, b: FormError)
    requires a != b
    ensures a.Message() != b.Message()
  {
  }

  /** A valid form except for a five-digit phone is rejected by the ten-digit rule. */
  lemma ShortPhoneRejected()
    ensures ValidateForm(Draft("Asha", "12345", "QA", "1 Main St", "Atlas")) == Invalid(PhoneInvalid)
  {
    var d := Draft("Asha", "12345", "QA", "1 Main St", "Atlas");
    assert Trim(d.name) != "" by { TrimOfTrimmed(d.name); }
    assert |Trim(d.phone)| == 5 by { TrimOfTrimmed(d.phone); }
    assert NonBlank(d.phone);
  }

  /** A name that is empty or only whitespace is rejected by the name rule, whatever the other fields hold. */
  lemma EmptyNameRejected(d: Draft)
    requires AllWhitespace(d.name)
    ensures ValidateForm(d) == Invalid(NameRequired)
    ensures ValidateForm(d).error.Message() == "Name is required"
  {
    TrimEmptyIff(d.name);
  }

  /** The whole page state of the single-page variant that submitting and deleting touch. */
  datatype AppState = AppState(employees: seq<Employee>, filters: SearchFilters, ui: UiState)

  /** The form after `resetForm`. */
  const EmptyForm := Draft("", "", "", "", "")

  /** `{ ...editing, ...form }`: the edited record with the form's five fields. */
  function ApplyDraft(e: Employee, d: Draft): Employee {
    FromDraft(d, e.id)
  }

  datatype Submitted = Submitted(state: AppState, form: Draft, validation: Validation)

  /**
   * `submitEmployee`: a rejected form changes nothing; an accepted one
   * updates the edited record (and stops editing) or adds a new record,
   * then clears the form.
   */
  function SubmitEmployee(st: AppState, form: Draft): (r: Submitted)
    ensures r.validation == ValidateForm(form)
    ensures r.validation.Invalid? ==> r.state == st && r.form == form
    ensures r.validation.Valid? ==> r.form == EmptyForm && !r.state.ui.loading
    ensures r.validation.Valid? && !st.ui.isEditing ==>
      && |r.state.employees| == |st.employees| + 1
      && r.state.employees[..|st.employees|] == st.employees
      && r.state.employees[|st.employees|] == FromDraft(form, MaxId(st.employees) + 1)
    ensures r.validation.Valid? && st.ui.isEditing ==>
      && |r.state.employees| == |st.employees|
      && !r.state.ui.isEditing && r.state.ui.editingEmployee.None?
    ensures r.validation.Valid? && st.ui.isEditing && st.ui.editingEmployee.Some? ==>
      r.state.employees == UpdateEmployee(st.employees, ApplyDraft(st.ui.editingEmployee.value, form))
    ensures r.validation.Valid? && !st.ui.isEditing ==> r.state.ui == st.ui.(loading := false)
    ensures r.validation.Valid? && st.ui.isEditing ==> r.state.ui == StopEditing(st.ui).(loading := false)
    ensures r.state.filters == st.filters
  {
    match ValidateForm(form)
    case Invalid(err) => Submitted(st, form, Invalid(err))
    case Valid =>
      var employees :=
        if !st.ui.isEditing then AddEmployee(st.employees, form).employees
        else if st.ui.editingEmployee.Some? then UpdateEmployee(st.employees, ApplyDraft(st.ui.editingEmployee.value, form))
        // `{ ...null, ...form }` carries no id, so no record matches it.
        else st.employees;
      var ui := if st.ui.isEditing then StopEditing(st.ui) else st.ui;
      Submitted(AppState(employees, st.filters, ui.(loading := false)), EmptyForm, Valid)
  }

  /** Submitting an accepted edit stores the form's fields under the edited record's id. */
  lemma SubmitUpdatesEditedRecord(st: AppState, form: Draft, e: Employee)
    requires ValidateForm(form).Valid? && st.ui.isEditing && st.ui.editingEmployee == Some(e)
    requires exists x :: x in st.employees && x.id == e.id
    ensures GetEmployeeById(SubmitEmployee(st, form).state.employees, e.id) == Some(ApplyDraft(e, form))
    ensures |SubmitEmployee(st, form).state.employees| == |st.employees|
  {
    UpdateThenGet(st.employees, ApplyDraft(e, form));
  }

  /** Submitting keeps record ids unique. */
  lemma SubmitKeepsUniqueIds(st: AppState, form: Draft)
    requires UniqueIds(st.employees)
    ensures UniqueIds(SubmitEmployee(st, form).state.employees)
  {
    if ValidateForm(form).Valid? {
      if st.ui.isEditing {
        if st.ui.editingEmployee.Some? {
          UpdateKeepsUniqueIds(st.employees, ApplyDraft(st.ui.editingEmployee.value, form));
        }
      } else {
        AddKeepsUniqueIds(st.employees, form);
      }
    }
  }

  /**
   * `deleteEmployee`: when the user confirms, every record with the
   * employee's id is removed; otherwise nothing changes. The UI is left
   * as it was apart from `loading`, so the selection and an open edit of
   * the deleted record both survive.
   */
  function DeleteEmployeeConfirmed(st: AppState, employee: Employee, confirmed: bool): (r: AppState)
    ensures !confirmed ==> r == st
    ensures confirmed ==> forall e :: e in r.employees ==> e.id != employee.id
    ensures confirmed ==> forall e: Employee :: e.id != employee.id ==> multiset(r.employees)[e] == multiset(st.employees)[e]
    ensures IsSubsequence(r.employees, st.employees)
    ensures confirmed ==> r.ui == st.ui.(loading := false)
    ensures r.ui.selectedEmployee == st.ui.selectedEmployee && r.filters == st.filters
  {
    if confirmed then
      st.(employees := DeleteEmployee(st.employees, employee.id), ui := st.ui.(loading := false))
    else
      assert IsSubsequence(st.employees, st.employees) by { SubsequenceRefl(st.employees); }
      st
  }

  /** `clearSearch`: the search form and the store's filters are emptied, so every record shows. */
  function ClearSearch(st: AppState): (r: AppState)
    ensures FilteredEmployees(r.employees, r.filters) == st.employees
    ensures r.filters == NoFilters
    ensures r.employees == st.employees && r.ui == st.ui
  {
    ClearedFiltersShowAll(st.employees);
    st.(filters := ClearSearchFilters())
  }
}
