/** The order tool set: purchasing the selected course, and the order agent's prompt,
    which is rendered afresh from the session on every turn. */
module OrderTools {
  import opened Wrappers
  import opened Courses
  import opened SessionState

  /** The structured result of `purchase_course`. */
  datatype PurchaseResult =
    | Purchased(message: string, courseId: string, timestamp: string)
    | PurchaseError(message: string)

  const NoCourseSelected := "No course selected yet."
  const AlreadyOwned := "You already own this course!"
  const PurchaseAction := "purchase_course"
  const CourseNotFound := "The selected course could not be found."

  function PurchasedMessage(courseId: string): string
  {
    "Successfully purchased the course: " + courseId + "!"
  }

  /** The course ids of the purchase records, in order: an id is owned exactly when
      some purchase record carries it. */
  function OwnedIds(purchased: seq<PurchaseRecord>): (ids: seq<string>)
    ensures |ids| == |purchased|
    ensures forall k :: 0 <= k < |purchased| ==> ids[k] == purchased[k].courseId
    ensures forall id :: id in ids <==> exists k :: 0 <= k < |purchased| && purchased[k].courseId == id
  {
    if purchased == [] then [] else [purchased[0].courseId] + OwnedIds(purchased[1..])
  }

  /** No course id is recorded as purchased twice. */
  predicate NoDuplicateIds(purchased: seq<PurchaseRecord>)
  {
    forall i, j :: 0 <= i < j < |purchased| ==> purchased[i].courseId != purchased[j].courseId
  }

  /** `purchase_course` on a snapshot: fails without a selection or on a course already
      owned, leaving the state as it was; otherwise appends one purchase record and one
      history entry that share the course id and the timestamp `now`. */
  function Purchase(s: State, now: string): (out: (State, PurchaseResult))
    ensures out.1.PurchaseError? <==> !HasSelection(s) || s.selected.value in OwnedIds(s.purchased)
    ensures !HasSelection(s) ==> out.1 == PurchaseError(NoCourseSelected)
    ensures HasSelection(s) && s.selected.value in OwnedIds(s.purchased) ==> out.1 == PurchaseError(AlreadyOwned)
    ensures out.1.PurchaseError? ==> out.0 == s
    ensures out.1.Purchased? ==>
      && Some(out.1.courseId) == s.selected
      && out.1.timestamp == now
      && out.1.message == PurchasedMessage(out.1.courseId)
      && out.0.purchased == s.purchased + [PurchaseRecord(out.1.courseId, out.1.timestamp)]
      && out.0.history == s.history + [Interaction(PurchaseAction, out.1.courseId, out.1.timestamp)]
      && out.1.courseId in OwnedIds(out.0.purchased)
    ensures out.0.selected == s.selected && out.0.userName == s.userName
    ensures NoDuplicateIds(s.purchased) ==> NoDuplicateIds(out.0.purchased)
  {
    if !HasSelection(s) then (s, PurchaseError(NoCourseSelected))
    else
      var id := s.selected.value;
      if id in OwnedIds(s.purchased) then (s, PurchaseError(AlreadyOwned))
      else
        var record := PurchaseRecord(id, now);
        assert id in OwnedIds(s.purchased + [record]) by {
          assert OwnedIds(s.purchased + [record])[|s.purchased|] == id;
        }
        (s.(purchased := s.purchased + [record],
            history := s.history + [Interaction(PurchaseAction, id, now)]),
         Purchased(PurchasedMessage(id), id, now))
  }

  /** `purchase_course` on the live session: the clock reading `now` is an input. The
      purchase list is rebuilt entry by entry before the new record is appended, and both
      lists are assigned back into the session. */
  method PurchaseCourse(session: Session, now: string) returns (r: PurchaseResult)
    modifies session`purchased, session`history
    ensures (session.Snapshot(), r) == Purchase(old(session.Snapshot()), now)
  {
    var courseId := session.selected;
    if courseId.None? || courseId.value == "" {
      return PurchaseError(NoCourseSelected);
    }
    var id := courseId.value;
    var current := session.purchased;
    var courseIds := OwnedIds(current);
    if id in courseIds {
      return PurchaseError(AlreadyOwned);
    }
    var rebuilt: seq<PurchaseRecord> := [];
    for i := 0 to |current|
      invariant rebuilt == current[..i]
    {
      rebuilt := rebuilt + [current[i]];
    }
    assert rebuilt == current by { assert current[..|current|] == current; }
    rebuilt := rebuilt + [PurchaseRecord(id, now)];
    session.purchased := rebuilt;
    var newHistory := session.history;
    newHistory := newHistory + [Interaction(PurchaseAction, id, now)];
    session.history := newHistory;
    r := Purchased(PurchasedMessage(id), id, now);
  }

  /** The order agent's prompt for a resolved course: every line of the template that
      carries a value (the selection header, the course name, the detail lines, the support
      line of the example response, the ownership-check id and the price mention), in
      template order, with the course's own fields filled in, together with three fixed lines
      (the agent's role, "Course Details:" and "Example Response for Purchase History:").
      All other fixed prose and the template's blank-line layout are omitted. */
  function CoursePrompt(selectedId: string, course: Course): string
  {
    "\n" + ("    Say this first: \"Current selected course: " + selectedId + "\"\n\n"
    + "    You are a order agent for the AI Developer Accelerator community, specifically handling order\n"
    + "    for the course: " + course.name + "\n\n"
    + "    Course Details:\n"
    + "    - Course ID: " + course.courseId + "\n"
    + "    - Name: " + course.name + "\n"
    + "    - Price: " + course.price + "\n"
    + "    - Value Proposition: " + course.description + "\n"
    + "    - Includes: " + course.support + "\n\n"
    + "    Example Response for Purchase History:\n"
    + "       - " + course.support + " access\"\n\n"
    + "       - The course id is \"" + course.courseId + "\"\n"
    + "       - Mention the price (" + course.price + ")\n")
  }

  /** `get_instruction_from_selected_course`: a read of the session that never changes it.
      The fixed fallback is returned exactly when the selection does not name a catalog course. */
  function OrderInstruction(s: State, catalog: seq<Course>): (r: string)
    ensures r == CourseNotFound <==> s.selected.None? || s.selected.value !in CatalogIds(catalog)
    ensures r != CourseNotFound ==>
      exists course :: course in catalog && course.courseId == s.selected.value && r == CoursePrompt(s.selected.value, course)
  {
    if s.selected.None? then CourseNotFound
    else
      match CourseById(catalog, s.selected.value)
      case None => CourseNotFound
      case Some(course) =>
        var r := CoursePrompt(s.selected.value, course);
        assert r != CourseNotFound by { assert r[0] != CourseNotFound[0]; }
        r
  }
}
