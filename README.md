# Smart To-Do: the task store and its history log

The Smart To-Do server keeps everything in process memory: an ordered list of tasks
(`id`, `title`, `priority`, `completed`), a counter that hands out task ids starting at 1,
and four history lists — `completed`, `edited`, `cancelled` and `deleted`. Its request
handlers are state transitions over that memory:

- **create** (POST /tasks) gives the new task the counter as its id, bumps the counter and
  appends the task, not completed;
- **update** (PUT /tasks/:id) writes the fields present in a partial patch into the task in
  place, then classifies the transition: a false-to-true completion appends a completed
  record, a true-to-false change drops every completed record of that task, and a
  truthy new title or a new priority that differs from the old one appends one edit
  record; an unknown id is silently ignored;
- **cancel tracking** (POST /history/cancel) appends a cancelled record, unconditionally;
- **delete** (DELETE /tasks/:id) appends a snapshot of the task to the deleted list and
  filters the task out of the store; an unknown id changes nothing.

The model has two modules:

- `TodoSpec` (`todo_spec.dfy`): the records as datatypes (`Task`, `Patch`, `Entry`,
  `Edit`, `Priority`), the pure logic the handlers use — `IndexOf` (the `find`),
  `DropTask` and `DropEntries` (the two `filter` calls), `Apply` (the patch),
  `EditTriggered`, `CompletedAfter` and `EditedAfter` (the transition classifier) — the
  store invariant `Consistent`, and the lemmas about all of them.
- `TodoServer` (`todo_server.dfy`): the class `Server`, whose fields are the server's
  module-level variables and whose methods are the handlers, each proved against the
  functions of `TodoSpec`; `Find` is the `find` scan as a loop. `CompleteThenUncomplete`
  is a client of the class showing that marking a task done and then not done leaves the
  completed history as it was.

The invariant kept by every handler (`Consistent`, `Server.Valid`): task ids strictly
increase along the store (so they are distinct) and lie in `[1, idCounter)`; completed
records carry ids below `idCounter`; and every task in the store has exactly one
completed record if it is completed and none otherwise. The last clause is what makes
"complete, then un-complete" restore the completed list exactly.

Two behaviours of the server that its surroundings suggest otherwise, modelled as the
server code has them:

- The browser client refuses an empty title before it sends a create or an edit
  (Smart-To_Do/frontend/app.js:46-50, 206-209), but the server checks nothing: it stores
  whatever title it receives (server.js:23, 55). An update may write an empty title,
  because `""` is not `undefined`. Such a title never triggers an edit record by itself.
- The comment at server.js:73 says edits are tracked when the title or the priority
  changed, but the condition at server.js:74-75 also requires the new title to be truthy,
  so a change to the empty title alone is not recorded.

## Model

| member | source | states |
|---|---|---|
| `TodoServer.Server.constructor` | Smart-To_Do/backend/server.js:8-17 | The server starts with an empty store, the counter at 1 and four empty history lists, and the invariant holds. |
| `TodoSpec.EmptyConsistent` | Smart-To_Do/backend/server.js:8-17 | The initial state satisfies the store invariant. |
| `TodoSpec.IndexOf` | Smart-To_Do/backend/server.js:48 | The position of the task `find` returns: the first task with the id, or nothing exactly when no task has that id. |
| `TodoServer.Server.Find` | Smart-To_Do/backend/server.js:106 | The front-to-back scan returns exactly the position `IndexOf` specifies. |
| `TodoServer.Server.Create` | Smart-To_Do/backend/server.js:20-29 | The new task has the old counter as id, is not completed and has the requested title and priority. Its id exceeds every existing id. It is appended at the end, the counter grows by exactly one, and no history list changes. |
| `TodoSpec.CreateKeepsConsistent` | Smart-To_Do/backend/server.js:21-27 | Appending a task with the counter as id and bumping the counter keeps ids increasing, distinct and below the counter. The new task has no completed record. |
| `TodoServer.Server.Update` | Smart-To_Do/backend/server.js:46-91 | For an unknown id, tasks, counter and all four lists are unchanged. Otherwise only the found task changes, in its own position, to the patched task (present fields written, absent fields and the id kept). The completed and edited lists follow the classifier. Cancelled and deleted lists and the counter never change, the edited list only grows at the end, and the invariant holds. |
| `TodoSpec.Snapshot` | Smart-To_Do/backend/server.js:60-65 | Definition, no contract of its own: the completed record (and, at server.js:108-113, the deleted record) copies the task's id, title and priority and adds the time stamp. |
| `TodoSpec.Apply` | Smart-To_Do/backend/server.js:54-56 | Definition, no contract of its own: each field present in the patch (`!== undefined`) replaces the task's, each absent field is kept, and the id never changes. |
| `TodoSpec.EditTriggered` | Smart-To_Do/backend/server.js:74-75 | Definition, no contract of its own: a present, truthy title that differs from the old title, or a present priority that differs from the old priority. |
| `TodoSpec.EditRecord` | Smart-To_Do/backend/server.js:76-83 | Definition, no contract of its own: the edit record holds the task id, the old title and priority, the title and priority after the patch, and the time stamp. |
| `TodoSpec.CompletedAfter` | Smart-To_Do/backend/server.js:58-71 | Definition, no contract of its own: false-to-true appends a snapshot of the task after the patch, true-to-false filters out every record with the task's id, and any other transition leaves the list alone. |
| `TodoSpec.EditedAfter` | Smart-To_Do/backend/server.js:73-84 | Definition, no contract of its own: appends one edit record when the edit condition holds and otherwise leaves the list alone. |
| `TodoSpec.UpdateKeepsConsistent` | Smart-To_Do/backend/server.js:50-84 | Patching one task and applying the classifier keeps the invariant. In particular, a completed task ends with exactly one completed record and an uncompleted one with none. |
| `TodoSpec.CompletedAfterTouchesOnlyItsTask` | Smart-To_Do/backend/server.js:58-71 | The classifier changes only the updated task's completed records. A false-to-true change adds one, a true-to-false change leaves none, and false-to-false or true-to-true leaves the count alone. Every other id keeps its count. |
| `TodoSpec.CompleteThenUncompleteRestores` | Smart-To_Do/backend/server.js:59-71 | Completing a task that has no completed record and then un-completing it gives back the completed list exactly. |
| `TodoServer.CompleteThenUncomplete` | Smart-To_Do/backend/server.js:46-71 | Two update requests on a stored, not-completed task, first `completed: true` and then `completed: false`, leave the completed history as it was. |
| `TodoSpec.EditedAfterAppendsOne` | Smart-To_Do/backend/server.js:73-84 | The edited list keeps its old records as a prefix and gains exactly one record exactly when the edit condition holds. That record has the task id, the old title and priority, and the post-patch title and priority. It differs in at least one field, and a field absent from the patch is recorded with old equal to new. |
| `TodoSpec.EmptyTitleIsWrittenButNotAnEdit` | Smart-To_Do/backend/server.js:54-75 | For every patch whose title is the empty string, that title is written to the task but never triggers an edit by itself: the update records an edit exactly when the patch also changes the priority. |
| `TodoServer.Server.TrackCancel` | Smart-To_Do/backend/server.js:94-102 | Exactly one cancelled record is appended, built from the request, without checking that the task exists and without deduplication. Nothing else changes. |
| `TodoServer.Server.Delete` | Smart-To_Do/backend/server.js:105-117 | For an unknown id nothing changes. Otherwise one deleted record is appended, a snapshot of the task's title and priority taken before removal. That task is removed and the others keep their order. Counter, completed, edited and cancelled lists are unchanged and the invariant holds. |
| `TodoSpec.DeleteKeepsConsistent` | Smart-To_Do/backend/server.js:115 | Filtering an id out of a consistent store removes exactly the task found at `IndexOf`, or nothing if the id is absent, and keeps the invariant. |
| `TodoSpec.RemoveAtKeepsConsistent` | Smart-To_Do/backend/server.js:115 | Removing one task from a consistent store keeps it consistent. |
| `TodoSpec.DropTask` | Smart-To_Do/backend/server.js:115 | The filtered store holds no task with the id and is no longer than the original. |
| `TodoSpec.DropTaskMembers` | Smart-To_Do/backend/server.js:115 | A task is in the filtered store exactly when it is in the original store and its id differs. |
| `TodoSpec.DropTaskNoop` | Smart-To_Do/backend/server.js:115 | Filtering out an id that no task carries leaves the store unchanged. |
| `TodoSpec.DropTaskRemovesOne` | Smart-To_Do/backend/server.js:115 | With strictly increasing ids, filtering out the id at position k removes exactly that task and keeps the rest in order. |
| `TodoSpec.DropEntries` | Smart-To_Do/backend/server.js:70 | The filtered completed list holds no record with the id. Its length is the original length minus the number of records with that id. |
| `TodoSpec.DropEntriesMembers` | Smart-To_Do/backend/server.js:70 | A record is in the filtered list exactly when it is in the original list and its id differs. |
| `TodoSpec.DropEntriesAppend` | Smart-To_Do/backend/server.js:70 | Filtering distributes over concatenation, so the kept records stay in their original order. |
| `TodoSpec.DropEntriesNoop` | Smart-To_Do/backend/server.js:70 | Filtering out an id that no record carries leaves the list unchanged. |
| `TodoSpec.CountDropEntries` | Smart-To_Do/backend/server.js:70 | After the filter no record carries the id, and every other id keeps its number of records. |

## Left out

- Express setup, CORS and JSON middleware, the cache-control headers, `app.listen` and
  all console logging (server.js:1-6, 38-42, 47, 86-88, 119-126): HTTP and I/O plumbing.
- The JSON responses (server.js:28, 90, 101, 116). Create returns the new task. The
  other handlers reply with a constant message, so their result is the same whether or
  not the id existed.
- GET /tasks and GET /history (server.js:32-43) only return the current values. These
  are the `tasks` field and the four history fields of `Server`.
- Timestamps: the server calls `new Date().toISOString()` at each append. The model takes
  one caller-supplied `now` per request. A completion and an edit from the same request
  therefore share one timestamp, where the server's two clock reads could differ by a
  millisecond.
- JavaScript dynamic typing is fixed to one type per field: ids are `nat`, titles are
  strings, the priority is one of High/Medium/Low, and `completed` is a boolean. The
  model therefore leaves out these cases: the loose `==`/`!=` between the string route
  parameter and the numeric id; body fields that are missing or of another type (a create
  without a title, a `null` or non-boolean `completed`); and priority strings other than
  the three. With an enum priority, `req.body.priority &&` is true exactly when the field
  is present.
- Ids are unbounded naturals. JavaScript numbers stop being exact above 2^53, which is
  out of reach here.
- The in-place field writes go to the task object returned by `find`. The model replaces
  the element at the same position. No aliasing is observable, because history records
  copy fields rather than holding the task object.
- The browser client (Smart-To_Do/frontend/app.js) is not part of this model. It covers
  DOM rendering, fetch calls, animations, the theme in local storage, the clock-dependent
  `formatTime`, the priority filter, the pending count and the slice of the five most
  recent history records.
- The history lists grow without bound in the server's memory. The model has no memory
  limit.
