/** The per-session state shared by the catalog and order tools: who the user is,
    which course is currently selected, what has been bought and the audit log. */
module SessionState {
  import opened Wrappers
  import opened Courses

  /** One entry of `purchased_courses`. */
  datatype PurchaseRecord = PurchaseRecord(courseId: string, purchaseDate: string)

  /** One entry of `interaction_history`. */
  datatype Interaction = Interaction(action: string, courseId: string, timestamp: string)

  /** A snapshot of the session mapping with its four recognised keys. */
  datatype State = State(
    userName: string,
    selected: Option<string>,
    purchased: seq<PurchaseRecord>,
    history: seq<Interaction>)

  /** The state a new session is created with: no selection and empty lists. */
  function Initial(userName: string): (s: State)
    ensures s.userName == userName && s.selected.None?
    ensures s.purchased == [] && s.history == []
  {
    State(userName, None, [], [])
  }

  /** `if not course_id`: an absent selection and the empty string both count as "none". */
  predicate HasSelection(s: State)
  {
    s.selected.Some? && s.selected.value != ""
  }

  /** The live session mapping that every tool receives by reference and updates in place. */
  class Session {
    var userName: string
    var selected: Option<string>
    var purchased: seq<PurchaseRecord>
    var history: seq<Interaction>

    /** The session's current contents as a value. */
    function Snapshot(): State
      reads this
    {
      State(userName, selected, purchased, history)
    }

    /** Creates a session holding the initial state. */
    constructor (userName: string)
      ensures Snapshot() == Initial(userName)
    {
      this.userName := userName;
      this.selected := None;
      this.purchased := [];
      this.history := [];
    }
  }
}
