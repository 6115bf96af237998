/**
 * The UI store of the single-page variant (app.js, `uiModule`): which
 * record is selected for viewing and which one is being edited.
 */
module UiStore {
  import opened Wrappers
  import opened EmployeesStore

  datatype UiState = UiState(
    showViewModal: bool,
    selectedEmployee: Option<Employee>,
    isEditing: bool,
    editingEmployee: Option<Employee>,
    loading: bool)

  /** The editing flag is raised exactly when there is a record being edited. */
  predicate EditingConsistent(ui: UiState) {
    ui.isEditing <==> ui.editingEmployee.Some?
  }

  /** The `startEditing` action: a copy of the record becomes the editing record. */
  function StartEditing(ui: UiState, e: Employee): (r: UiState)
    ensures r.isEditing && r.editingEmployee == Some(e)
    ensures EditingConsistent(r)
    ensures r.showViewModal == ui.showViewModal && r.selectedEmployee == ui.selectedEmployee
    ensures r.loading == ui.loading
  {
    ui.(isEditing := true, editingEmployee := Some(e))
  }

  /** The `stopEditing` action: no record is being edited any more. */
  function StopEditing(ui: UiState): (r: UiState)
    ensures !r.isEditing && r.editingEmployee.None?
    ensures EditingConsistent(r)
    ensures r.showViewModal == ui.showViewModal && r.selectedEmployee == ui.selectedEmployee
    ensures r.loading == ui.loading
  {
    ui.(isEditing := false, editingEmployee := None)
  }

  /** Starting and then stopping an edit leaves the state as stopping alone would; the view part is never touched. */
  lemma StopUndoesStart(ui: UiState, e: Employee)
    ensures StopEditing(StartEditing(ui, e)) == StopEditing(ui)
    ensures EditingConsistent(ui) && !ui.isEditing ==> StopEditing(StartEditing(ui, e)) == ui
  {
  }
}
