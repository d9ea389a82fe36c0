/** A session as a sequence of tool calls, one at a time, and the invariants every
    such sequence keeps. */
module SessionRun {
  import opened Wrappers
  import opened Courses
  import opened SessionState
  import opened CatalogTools
  import opened OrderTools

  /** One tool call of either tool set, with its arguments. */
  datatype ToolCall =
    | ListCall
    | SelectCall(courseId: string)
    | SelectByNameCall(courseName: string)
    | PurchaseCall(now: string)
    | InstructionCall

  /** The state after one tool call. Listing and rendering the prompt only read. */
  function Step(s: State, catalog: seq<Course>, byName: string -> Option<string>, call: ToolCall): State
  {
    match call
    case ListCall => s
    case SelectCall(id) => Select(s, catalog, id).0
    case SelectByNameCall(name) => SelectByName(s, catalog, byName, name).0
    case PurchaseCall(now) => Purchase(s, now).0
    case InstructionCall => s
  }

  /** The state after a whole sequence of tool calls, handled strictly in order. */
  function Run(s: State, catalog: seq<Course>, byName: string -> Option<string>, calls: seq<ToolCall>): State
    decreases |calls|
  {
    if calls == [] then s else Run(Step(s, catalog, byName, calls[0]), catalog, byName, calls[1..])
  }

  /** How many calls of the sequence are purchases that succeed. */
  function Successes(s: State, catalog: seq<Course>, byName: string -> Option<string>, calls: seq<ToolCall>): nat
    decreases |calls|
  {
    if calls == [] then 0
    else
      var hit := if calls[0].PurchaseCall? && Purchase(s, calls[0].now).1.Purchased? then 1 else 0;
      hit + Successes(Step(s, catalog, byName, calls[0]), catalog, byName, calls[1..])
  }

  /** The session invariant: no course is owned twice, the selection (if any) is a catalog
      id, and the history holds one purchase entry per purchase record, in the same order. */
  ghost predicate Consistent(s: State, catalog: seq<Course>)
  {
    && NoDuplicateIds(s.purchased)
    && (s.selected.Some? ==> s.selected.value in CatalogIds(catalog))
    && |s.history| == |s.purchased|
    && forall k :: 0 <= k < |s.history| ==>
         s.history[k] == Interaction(PurchaseAction, s.purchased[k].courseId, s.purchased[k].purchaseDate)
  }

  lemma InitialIsConsistent(userName: string, catalog: seq<Course>)
    ensures Consistent(Initial(userName), catalog)
  {
  }

  /** Every single tool call keeps the invariant. */
  lemma StepPreservesConsistency(s: State, catalog: seq<Course>, byName: string -> Option<string>, call: ToolCall)
    requires Consistent(s, catalog)
    ensures Consistent(Step(s, catalog, byName, call), catalog)
  {
  }

  /** Every sequence of tool calls keeps the invariant. */
  lemma {:induction false} RunPreservesConsistency(
    s: State, catalog: seq<Course>, byName: string -> Option<string>, calls: seq<ToolCall>)
    requires Consistent(s, catalog)
    ensures Consistent(Run(s, catalog, byName, calls), catalog)
    decreases |calls|
  {
    if calls != [] {
      StepPreservesConsistency(s, catalog, byName, calls[0]);
      RunPreservesConsistency(Step(s, catalog, byName, calls[0]), catalog, byName, calls[1..]);
    }
  }

  /** Purchases and history only grow at the end, and the user name is never written. */
  lemma {:induction false} RunIsAppendOnly(
    s: State, catalog: seq<Course>, byName: string -> Option<string>, calls: seq<ToolCall>)
    ensures s.purchased <= Run(s, catalog, byName, calls).purchased
    ensures s.history <= Run(s, catalog, byName, calls).history
    ensures Run(s, catalog, byName, calls).userName == s.userName
    decreases |calls|
  {
    if calls != [] {
      var t := Step(s, catalog, byName, calls[0]);
      assert s.purchased <= t.purchased && s.history <= t.history && t.userName == s.userName;
      RunIsAppendOnly(t, catalog, byName, calls[1..]);
    }
  }

  /** Each successful purchase adds exactly one purchase record and one history entry;
      every other call adds none. */
  lemma {:induction false} RunCountsPurchases(
    s: State, catalog: seq<Course>, byName: string -> Option<string>, calls: seq<ToolCall>)
    ensures |Run(s, catalog, byName, calls).history| == |s.history| + Successes(s, catalog, byName, calls)
    ensures |Run(s, catalog, byName, calls).purchased| == |s.purchased| + Successes(s, catalog, byName, calls)
    decreases |calls|
  {
    if calls != [] {
      RunCountsPurchases(Step(s, catalog, byName, calls[0]), catalog, byName, calls[1..]);
    }
  }

  /** From a new session, after any sequence of tool calls: the invariant holds, the
      history is exactly as long as the number of successful purchases, and the
      user name is the one the session was created with. */
  lemma ReachableStates(userName: string, catalog: seq<Course>, byName: string -> Option<string>, calls: seq<ToolCall>)
    ensures Consistent(Run(Initial(userName), catalog, byName, calls), catalog)
    ensures |Run(Initial(userName), catalog, byName, calls).history| == Successes(Initial(userName), catalog, byName, calls)
    ensures Run(Initial(userName), catalog, byName, calls).userName == userName
  {
    InitialIsConsistent(userName, catalog);
    RunPreservesConsistency(Initial(userName), catalog, byName, calls);
    RunCountsPurchases(Initial(userName), catalog, byName, calls);
    RunIsAppendOnly(Initial(userName), catalog, byName, calls);
  }

  /** A purchase that succeeds leaves the course selected and owned, so repeating it is
      rejected as already owned and changes nothing. */
  lemma SecondPurchaseRejected(s: State, first: string, second: string)
    requires Purchase(s, first).1.Purchased?
    ensures Purchase(s, first).0.selected == s.selected
    ensures Purchase(Purchase(s, first).0, second) == (Purchase(s, first).0, PurchaseError(AlreadyOwned))
  {
  }

  /** Selection is last-write-wins and repeating a selection changes nothing more. */
  lemma SelectionLastWriteWins(s: State, catalog: seq<Course>, first: string, second: string)
    requires second in CatalogIds(catalog)
    ensures Select(Select(s, catalog, first).0, catalog, second) == Select(s, catalog, second)
    ensures Select(Select(s, catalog, second).0, catalog, second).0 == Select(s, catalog, second).0
  {
  }

  /** In a consistent session the order agent's prompt falls back only when nothing is selected. */
  lemma InstructionResolvesSelection(s: State, catalog: seq<Course>)
    requires Consistent(s, catalog)
    ensures OrderInstruction(s, catalog) == CourseNotFound <==> s.selected.None?
  {
  }
}
