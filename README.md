# Course selection and purchase: a verified model of the session tools

This project models the per-session state machine of a customer-support chatbot that sells
courses. The session holds a mapping with four keys:

- `user_name`
- `selected_course_id`, the current purchase intent
- `purchased_courses`, a list of `{course_id, purchase_date}` records
- `interaction_history`, a list of `{action, course_id, timestamp}` records

Two tool sets read and write this mapping:

- The **catalog tools** list the catalog and set the selection, by id or by course name.
- The **order tools** purchase the selected course and render the order agent's prompt from the current selection.

Layout:

- `wrappers.dfy` (module `Wrappers`): the `Option` type used for the selection and the lookups.
- `courses.dfy` (module `Courses`): the course record, the catalog's id list and the exact-match lookup by id.
- `session.dfy` (module `SessionState`): the state as a value (`State`), the initial state, and the class `Session`. `Session` is the live mapping that the tools update in place.
- `catalog.dfy` (module `CatalogTools`): `Select` and `SelectByName` state each selection tool on a snapshot. The methods `SetCourseSelection` and `SelectCourseByName` update a `Session` and are proved equal to them.
- `order.dfy` (module `OrderTools`): `Purchase` states `purchase_course` on a snapshot. `PurchaseCourse` performs it on a `Session`, rebuilding the purchase list entry by entry as the source does. `OrderInstruction` is the prompt renderer.
- `session_run.dfy` (module `SessionRun`): a session is a sequence of tool calls. The invariants proved here hold after every such sequence that starts from a new session.

The catalog is a parameter of every tool: the catalog data module (`shared/course_data`) is not part of this model. Lookup by name is an uninterpreted parameter `string -> Option<string>`. Lookup by id is modelled as an exact match, with the first match in catalog order winning. The clock reading of a purchase is an input string `now`.

Notes on the code's behaviour:

- "No course selected" is the answer both when the selection is absent and when it is the empty string (`if not course_id`).
- A name lookup that yields the empty string is likewise reported as "No course found matching …".
- `purchase_course` assigns `purchased_courses` and then `interaction_history`; tool calls are handled one at a time, so no caller observes the state in between.

## Model

| member | source | states |
|---|---|---|
| `SessionState.Initial` | app/main.py:22-26 | A new session has no selection, no purchases and no history, and keeps the given user name. |
| `SessionState.Session.constructor` | app/main.py:22-26 | A freshly created live session holds exactly the initial state. |
| `Courses.CatalogIds` | app/customer_service_agent/sub_agents/catalog_agent/agent.py:13 | The list of catalog ids has one entry per course, in catalog order. |
| `Courses.CourseById` | app/customer_service_agent/sub_agents/order_agent/agent.py:65-66 | Lookup finds nothing exactly when the id is not a catalog id. A found course is in the catalog and carries that id. |
| `CatalogTools.ListCourses` | app/customer_service_agent/sub_agents/catalog_agent/agent.py:6-8 | Returns the catalog verbatim and modifies nothing in the session. |
| `CatalogTools.Select` | app/customer_service_agent/sub_agents/catalog_agent/agent.py:11-24 | Succeeds if and only if the id is a catalog id. On success the selection becomes exactly that id. On failure the state is unchanged and the message is "Course ID '…' not found.". Purchases, history and user name are never touched. |
| `CatalogTools.SetCourseSelection` | app/customer_service_agent/sub_agents/catalog_agent/agent.py:11-24 | The live session's new state and the result are exactly those of `Select`. Its frame allows writing only the selection field. |
| `CatalogTools.SelectByName` | app/customer_service_agent/sub_agents/catalog_agent/agent.py:27-36 | An unresolved (or empty) name lookup gives the distinct "No course found matching '…'." error and leaves the state unchanged. A resolved id behaves exactly like `Select` on that id, including its re-check against the catalog. Success holds if and only if the lookup yields a non-empty catalog id. |
| `CatalogTools.SelectCourseByName` | app/customer_service_agent/sub_agents/catalog_agent/agent.py:27-36 | The live session's new state and the result are exactly those of `SelectByName`. Only the selection field may be written. |
| `OrderTools.OwnedIds` | app/customer_service_agent/sub_agents/order_agent/agent.py:26-28 | The owned-id list has one entry per purchase record, in order. An id is in it exactly when some purchase record carries that id, which is what "already owns" means. |
| `OrderTools.Purchase` | app/customer_service_agent/sub_agents/order_agent/agent.py:16-59 | Fails if and only if nothing (or "") is selected or the selected id is already owned, with the source's two messages. A failure leaves the state unchanged. A success appends exactly one `{course_id, purchase_date}` record and one `purchase_course` history entry. Both carry the selected id and `now`, and the result reports the same id and timestamp. Afterwards the course is owned. Selection and user name never change. A duplicate-free purchase list stays duplicate-free. |
| `OrderTools.PurchaseCourse` | app/customer_service_agent/sub_agents/order_agent/agent.py:10-59 | The live session's new state and the result are exactly those of `Purchase`. The loop that rebuilds the purchase list reproduces the old list before the new record is appended. Only the purchase list and history fields may be written. |
| `OrderTools.OrderInstruction` | app/customer_service_agent/sub_agents/order_agent/agent.py:63-134 | Returns exactly "The selected course could not be found." if and only if there is no selection or the selection is not a catalog id. Otherwise it returns the prompt rendered from the catalog course that has the selected id. It reads the state only. |
| `SessionRun.InitialIsConsistent` | app/main.py:22-26 | The initial state satisfies the session invariant. |
| `SessionRun.StepPreservesConsistency` | app/customer_service_agent/sub_agents/order_agent/agent.py:26-52 | Every tool call keeps the invariant: no duplicate owned ids, the selection is a catalog id, and history entries match purchase records one for one. |
| `SessionRun.RunPreservesConsistency` | app/customer_service_agent/sub_agents/catalog_agent/agent.py:13-17 | Any sequence of tool calls keeps the session invariant. |
| `SessionRun.RunIsAppendOnly` | app/customer_service_agent/sub_agents/order_agent/agent.py:33-52 | Over any sequence of calls the old purchase list and old history are prefixes of the new ones, and the user name is unchanged. |
| `SessionRun.RunCountsPurchases` | app/customer_service_agent/sub_agents/order_agent/agent.py:44-52 | Over any sequence of calls, history and purchase list each grow by exactly the number of successful purchases. |
| `SessionRun.ReachableStates` | app/customer_service_agent/sub_agents/order_agent/agent.py:38-52 | From a new session, after any sequence of calls: the invariant holds, the history length equals the number of successful purchases, and the user name is the original one. |
| `SessionRun.SecondPurchaseRejected` | app/customer_service_agent/sub_agents/order_agent/agent.py:26-30 | After a successful purchase the selection still names the course. A second purchase is rejected as "You already own this course!" and changes nothing. |
| `SessionRun.SelectionLastWriteWins` | app/customer_service_agent/sub_agents/catalog_agent/agent.py:17 | Selecting a valid id after any other selection gives the same result as selecting it alone. Repeating a selection is idempotent. |
| `SessionRun.InstructionResolvesSelection` | app/customer_service_agent/sub_agents/order_agent/agent.py:63-67 | In a consistent session the order prompt falls back exactly when nothing is selected. |

## Left out

- The agent definitions (`Agent(...)` with model name, description and tool list) are framework configuration with no behaviour of their own.
- The catalog agent's instruction text is prompt prose with no behaviour of its own.
- `OrderTools.OrderInstruction` renders every line of the prompt template that carries a value, in template order: the "Current selected course" header, the course name, the five course detail lines, the support line of the example response (order_agent/agent.py:99), the course id of the ownership check (:104) and the price mention (:112). It also keeps three fixed lines: "You are a order agent … handling order" (:72), "Course Details:" (:87) and "Example Response for Purchase History:" (:95). All other fixed prose and the template's blank-line layout are omitted, and so are the literal `{user_name}`, `{purchased_courses}` and `{interaction_history}` placeholders, which the framework fills in.
- The interactive loop, session service, runner and printing of `app/main.py` are I/O and framework plumbing. Only the initial state is modelled. The user name is a parameter instead of the demo's fixed name.
- `SessionRun.Consistent`: the interactive loop also writes `interaction_history` on every turn (`add_user_query_to_history`, app/main.py:70-73, whose module `utils` is not part of this model). Those writes are outside the model, so the clause that history entries match purchase records one for one covers only the tools' own writes, not the program's whole session.
- `SessionRun.RunCountsPurchases`: counts only the tools' own writes to `interaction_history`; the interactive loop's per-turn history entries (app/main.py:70-73) are outside the model.
- `SessionRun.ReachableStates`: "history length equals the number of successful purchases" holds for sessions driven by tool calls alone; the interactive loop's per-turn history entries (app/main.py:70-73) are outside the model.
- `datetime.now()` is clock I/O. The formatted timestamp is the input `now`.
- The `DEBUG` print and the `debug_selected_id` field of the selection result are diagnostics only.
- `list_courses` wraps the catalog in a `{"courses": …}` mapping. The model returns the catalog sequence itself.
- The contents of `COURSES` and the fuzzy name-matching policy of `get_course_id_by_name` are not part of this model. Both are parameters, and no claim is made about how names match.
- The `isinstance` filters over `purchased_courses` are the identity on the typed records used here, so malformed entries cannot arise. The `KeyError` the code would raise on a dict without `course_id` is not modelled.
- The `.get(key, [])` defaults for missing lists are not modelled. The state always holds both lists, as every session created from the initial state does.
