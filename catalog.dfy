/** The catalog tool set: list the catalog, select a course by id, select a course by name. */
module CatalogTools {
  import opened Wrappers
  import opened Courses
  import opened SessionState

  /** The structured result of a selection tool: `status` is given by the variant. */
  datatype SelectionResult = Selected(message: string) | SelectionError(message: string)

  function NotFoundMessage(courseId: string): string
  {
    "Course ID '" + courseId + "' not found."
  }

  function SelectedMessage(courseId: string): string
  {
    "Course '" + courseId + "' selected."
  }

  function NoMatchMessage(courseName: string): string
  {
    "No course found matching '" + courseName + "'."
  }

  /** Selecting by id: a catalog id overwrites the selection; any other id is reported
      and changes nothing. Only the selection can change. */
  function Select(s: State, catalog: seq<Course>, courseId: string): (out: (State, SelectionResult))
    ensures out.1.Selected? <==> courseId in CatalogIds(catalog)
    ensures out.1.Selected? ==>
      out.0.selected == Some(courseId) && out.1.message == SelectedMessage(courseId)
    ensures out.1.SelectionError? ==> out.0 == s && out.1.message == NotFoundMessage(courseId)
    ensures out.0.userName == s.userName && out.0.purchased == s.purchased && out.0.history == s.history
  {
    if courseId !in CatalogIds(catalog) then (s, SelectionError(NotFoundMessage(courseId)))
    else (s.(selected := Some(courseId)), Selected(SelectedMessage(courseId)))
  }

  /** Selecting by name: a name the lookup cannot resolve (no id, or the empty id) is its own
      error; a resolved id goes through `Select`, which checks it against the catalog again. */
  function SelectByName(s: State, catalog: seq<Course>, byName: string -> Option<string>, courseName: string)
    : (out: (State, SelectionResult))
    ensures byName(courseName).None? || byName(courseName).value == "" ==>
      out == (s, SelectionError(NoMatchMessage(courseName)))
    ensures byName(courseName).Some? && byName(courseName).value != "" ==>
      out == Select(s, catalog, byName(courseName).value)
    ensures out.1.Selected? <==>
      byName(courseName).Some? && byName(courseName).value != "" && byName(courseName).value in CatalogIds(catalog)
    ensures out.1.Selected? ==> out.0.selected == byName(courseName)
    ensures out.1.SelectionError? ==> out.0 == s
  {
    var found := byName(courseName);
    if found.None? || found.value == "" then (s, SelectionError(NoMatchMessage(courseName)))
    else Select(s, catalog, found.value)
  }

  /** `list_courses`: hands back the catalog itself and touches no session state. */
  method ListCourses(session: Session, catalog: seq<Course>) returns (courses: seq<Course>)
    ensures courses == catalog
  {
    courses := catalog;
  }

  /** `set_course_selection`: writes the session's selection in place when the id is a catalog id. */
  method SetCourseSelection(session: Session, catalog: seq<Course>, courseId: string) returns (r: SelectionResult)
    modifies session`selected
    ensures (session.Snapshot(), r) == Select(old(session.Snapshot()), catalog, courseId)
  {
    var courseIds := CatalogIds(catalog);
    if courseId !in courseIds {
      return SelectionError(NotFoundMessage(courseId));
    }
    session.selected := Some(courseId);
    r := Selected(SelectedMessage(courseId));
  }

  /** `select_course_by_name`: resolves the name, then delegates to `SetCourseSelection`. */
  method SelectCourseByName(session: Session, catalog: seq<Course>, byName: string -> Option<string>, courseName: string)
    returns (r: SelectionResult)
    modifies session`selected
    ensures (session.Snapshot(), r) == SelectByName(old(session.Snapshot()), catalog, byName, courseName)
  {
    var courseId := byName(courseName);
    if courseId.None? || courseId.value == "" {
      return SelectionError(NoMatchMessage(courseName));
    }
    r := SetCourseSelection(session, catalog, courseId.value);
  }
}
