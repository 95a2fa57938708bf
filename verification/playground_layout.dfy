/** The playground's layout settings: whether the editor and the algorithm list are
    open, list or grid view, the "implemented only" filter, and the sidebar search. */
module PlaygroundLayout {
  /** The slice state. `viewMode` and `searchMode` are kept as the strings the slice
      stores, since the setters accept any payload. */
  datatype Layout = Layout(
    isEditorOpen: bool,
    isListOpen: bool,
    viewMode: string,
    implementedFilter: bool,
    searchMode: string,
    searchQuery: string)

  /** The eight reducers, each with its payload. */
  datatype Action =
    | ToggleEditor
    | ToggleList
    | ToggleViewMode
    | ToggleImplementedFilter
    | SetEditorOpen(open: bool)
    | SetListOpen(open: bool)
    | SetSearchMode(mode: string)
    | SetSearchQuery(query: string)

  /** Names of the state's fields. */
  datatype LayoutField = EditorOpen | ListOpen | ViewMode | ImplementedFilter | SearchMode | SearchQuery

  function Initial(): (s: Layout)
    ensures !s.isEditorOpen && s.isListOpen && !s.implementedFilter
    ensures s.viewMode == "list" && s.searchMode == "category" && s.searchQuery == ""
  {
    Layout(false, true, "list", false, "category", "")
  }

  /** The one field an action writes. */
  function Target(act: Action): LayoutField {
    match act
    case ToggleEditor => EditorOpen
    case SetEditorOpen(_) => EditorOpen
    case ToggleList => ListOpen
    case SetListOpen(_) => ListOpen
    case ToggleViewMode => ViewMode
    case ToggleImplementedFilter => ImplementedFilter
    case SetSearchMode(_) => SearchMode
    case SetSearchQuery(_) => SearchQuery
  }

  /** The fields on which two states differ. */
  function Changed(s: Layout, t: Layout): (d: set<LayoutField>)
    ensures d == {} <==> s == t
  {
    (if s.isEditorOpen != t.isEditorOpen then {EditorOpen} else {})
    + (if s.isListOpen != t.isListOpen then {ListOpen} else {})
    + (if s.viewMode != t.viewMode then {ViewMode} else {})
    + (if s.implementedFilter != t.implementedFilter then {ImplementedFilter} else {})
    + (if s.searchMode != t.searchMode then {SearchMode} else {})
    + (if s.searchQuery != t.searchQuery then {SearchQuery} else {})
  }

  /** The view a toggle switches to: grid from list, list from anything else. */
  function Toggled(view: string): (r: string)
    ensures r == "grid" <==> view == "list"
    ensures r == "list" <==> view != "list"
  {
    if view == "list" then "grid" else "list"
  }

  /** The slice's reducer. */
  function Reduce(s: Layout, act: Action): Layout {
    match act
    case ToggleEditor => s.(isEditorOpen := !s.isEditorOpen)
    case ToggleList => s.(isListOpen := !s.isListOpen)
    case ToggleViewMode => s.(viewMode := Toggled(s.viewMode))
    case ToggleImplementedFilter => s.(implementedFilter := !s.implementedFilter)
    case SetEditorOpen(b) => s.(isEditorOpen := b)
    case SetListOpen(b) => s.(isListOpen := b)
    case SetSearchMode(m) => s.(searchMode := m)
    case SetSearchQuery(q) => s.(searchQuery := q)
  }

  predicate IsToggle(act: Action) {
    act.ToggleEditor? || act.ToggleList? || act.ToggleViewMode? || act.ToggleImplementedFilter?
  }

  /** The view is one of the two the layout offers. */
  predicate KnownView(s: Layout) {
    s.viewMode == "list" || s.viewMode == "grid"
  }

  // ---------------------------------------------------------------------------
  // Properties

  /** Every reducer changes at most the one field it targets, and a toggle always
      changes it. */
  lemma OneFieldChanges(s: Layout, act: Action)
    ensures Changed(s, Reduce(s, act)) <= {Target(act)}
    ensures IsToggle(act) ==> Changed(s, Reduce(s, act)) == {Target(act)}
  {
  }

  /** The three boolean toggles undo themselves. */
  lemma ToggleTwice(s: Layout, act: Action)
    requires act.ToggleEditor? || act.ToggleList? || act.ToggleImplementedFilter?
    ensures Reduce(Reduce(s, act), act) == s
  {
  }

  /** Toggling the view twice restores it exactly when it was list or grid; from any
      other value it lands on grid. */
  lemma ViewToggleTwice(s: Layout)
    ensures Reduce(Reduce(s, ToggleViewMode), ToggleViewMode) == s <==> KnownView(s)
    ensures !KnownView(s) ==> Reduce(Reduce(s, ToggleViewMode), ToggleViewMode).viewMode == "grid"
  {
    var t := Reduce(Reduce(s, ToggleViewMode), ToggleViewMode);
    assert t.viewMode == Toggled(Toggled(s.viewMode));
  }

  /** The view starts as list and no reducer moves it outside list and grid. */
  lemma ViewStaysKnown(s: Layout, act: Action)
    ensures KnownView(Initial())
    ensures KnownView(s) ==> KnownView(Reduce(s, act))
    ensures act.ToggleViewMode? ==> KnownView(Reduce(s, act))
  {
  }

  /** Setting a field twice is setting it once, and setting it after a toggle of the same
      field forgets the toggle. */
  lemma SetOverrides(s: Layout, first: Action, act: Action)
    requires !IsToggle(act) && Target(first) == Target(act)
    ensures Reduce(Reduce(s, first), act) == Reduce(s, act)
  {
  }

  /** Reducers that target different fields can run in either order. */
  lemma DistinctCommute(s: Layout, a: Action, b: Action)
    requires Target(a) != Target(b)
    ensures Reduce(Reduce(s, a), b) == Reduce(Reduce(s, b), a)
  {
  }
}
