# Task store of the hw5 task service

The service in `hw5.py` keeps its tasks in one module-level list. It starts
with four seed records, and the id 4 record is already soft-deleted. Five
HTTP handlers work on that list:

- `show_all_tasks` lists the records that are not soft-deleted.
- `show_task` returns the first record with an id, unless that record is soft-deleted.
- `create_task` appends a record whose id is positive and not used by any stored record.
- `update_task` overwrites the title and description of the first record with an id.
- `delete_task` soft-deletes the first record with an id.

This project models that list and those five operations without the web framework.

- Module `Tasks` (`tasks.dfy`) holds the `Task` record and the seed. It also holds
  `FindFirst`, the first-match scan that get, create, update and delete share. The two queries are
  functions over the stored sequence. For each mutating handler, a pair of functions
  gives its answer (`CreateOutcome`, `UpdateOutcome`, `DeleteOutcome`) and its effect
  on the sequence (`AfterCreate`, `AfterUpdate`, `AfterDelete`).
- Module `Store` (`store.dfy`) holds the class `TaskStore`. Its field `tasks` is the
  list. The constructor loads the seed. The methods `CreateTask`, `UpdateTask` and
  `DeleteTask` change the field in place. Each method is proved to answer and act as
  its two functions say, and to keep the id invariant (ids positive and pairwise distinct).
- Module `TaskProperties` (`properties.dfy`) proves properties that relate several calls:
  - list order and list membership;
  - what a later get answers after each mutation;
  - that the seed satisfies the id invariant and that every operation keeps it;
  - that a repeated delete is harmless.

Handler answers are the datatype `Outcome`:

- `Ok(value)` is the 200 answer.
- `NotFound` is the 404 "Not found".
- `InvalidId` is the 422 "Invalid ID".
- `Raised` is update's answer for a found id (see below).

Delete's confirmation message is modelled as the `Removal` pair of id and title it is built from.

Update on a found id first overwrites the title and the description. The next line
(`hw5.py:70`) reads a `status` attribute, which `Task` does not declare, so it raises.
The model keeps the store change and answers `Raised`. It never claims that update
returns the updated task.

Two behaviours of the code could be read as unintended; the model keeps both as written:

- Update and delete look records up without filtering soft-deleted ones. A soft-deleted
  record can still have its title and description edited. Deleting it again succeeds with
  the same confirmation and changes nothing. It stays hidden from list and get throughout
  (`UpdateThenShow`, `UpdateThenList`, `DeleteAgain`).
- The header comment (hw5.py:1-12) asks that a task's status be settable, but update's status line
  never takes effect. It raises before it assigns anything, so `is_completed` is never changed by update.

## Model

| member | source | states |
|---|---|---|
| Tasks.Seed | hw5.py:32-35 | the four start-up records, ids 1 to 4; the second is completed and the fourth is soft-deleted |
| Tasks.FindFirst | hw5.py:51 | the shared lookup returns the position of the first stored record with the id, deleted ones included, and returns None exactly when no record has the id |
| Tasks.ShowAllTasks | hw5.py:44-46 | every listed record is stored and not soft-deleted, and the list is no longer than the store |
| Tasks.ShowTask | hw5.py:50-52 | get answers the first record with the id when it is not deleted; it answers NotFound when that first record is deleted or no record has the id |
| Tasks.CreateOutcome | hw5.py:57-61 | create succeeds exactly when no stored record, deleted or not, has the id and the id is positive; otherwise it answers InvalidId |
| Tasks.AfterCreate | hw5.py:58-60 | an accepted create appends the payload at the end and keeps the earlier records; a refused one leaves the store unchanged |
| Tasks.UpdateOutcome | hw5.py:66-71 | update never answers the updated task: NotFound exactly when no record has the id, Raised (the `status` read) exactly when one does |
| Tasks.AfterUpdate | hw5.py:66-69 | update keeps the length; only the first record with the id changes; it takes the payload's title and description and keeps its id and both flags |
| Tasks.DeleteOutcome | hw5.py:76-81 | delete succeeds exactly when some record, deleted or not, has the id; the confirmation carries that first record's id and title; otherwise it answers NotFound |
| Tasks.AfterDelete | hw5.py:76-78 | delete keeps the length and order; only the first record with the id changes, and its only change is that it becomes deleted |
| TaskProperties.ListedIff | hw5.py:45 | a record is listed if and only if it is stored and not soft-deleted |
| TaskProperties.ListedConcat | hw5.py:45 | listing a concatenation gives the concatenation of the two listings, so stored order is kept |
| TaskProperties.ListedAt | hw5.py:45 | a visible record at position i is in the list at the position equal to the number of visible records stored before it |
| TaskProperties.SeedIdsValid | hw5.py:32-35 | the seed ids are positive and pairwise distinct |
| TaskProperties.SeedQueries | hw5.py:32-35 | on the seed, the list is the first three records in order, get 4 answers NotFound, and get 1 answers the first record |
| TaskProperties.SameIdsSameMatches | hw5.py:51 | two stores with the same ids at each position give the same first-match positions and agree on the id invariant |
| TaskProperties.CreateGuardIsInvariant | hw5.py:57-60 | on a store with valid ids, create accepts exactly the payloads whose append keeps ids positive and distinct, so create keeps the invariant |
| TaskProperties.CreateThenShow | hw5.py:51-52 | after an accepted create, get on the new id answers the payload, or NotFound if the payload itself is marked deleted; other ids answer as before |
| TaskProperties.CreateThenList | hw5.py:45 | after an accepted create, the list is the old list followed by the payload if the payload is visible |
| TaskProperties.UpdateKeepsIds | hw5.py:66-69 | update keeps the id invariant and never breaks it |
| TaskProperties.UpdateThenShow | hw5.py:66-69 | after an update, get on that id shows the new title and description when it showed the record before; it stays NotFound otherwise, including for an edited deleted record |
| TaskProperties.ListedLengthSplice | hw5.py:45 | replacing one stored record by another with the same deleted flag keeps the number of listed records |
| TaskProperties.UpdateThenList | hw5.py:45 | update keeps the number of listed records, and an edited soft-deleted record stays out of the list |
| TaskProperties.UpdateKeepsOtherLookups | hw5.py:66-69 | update does not change what get answers for any other id |
| TaskProperties.DeleteKeepsIds | hw5.py:76-78 | delete keeps the id invariant and never breaks it |
| TaskProperties.DeleteThenShow | hw5.py:78 | after a delete, get on that id answers NotFound |
| TaskProperties.DeleteThenList | hw5.py:45 | on a store with valid ids, no listed record has the deleted id after a delete |
| TaskProperties.DeleteAgain | hw5.py:76-80 | deleting an id whose first record is already deleted leaves the store unchanged; a second delete changes nothing more and answers the same confirmation |
| TaskProperties.DeleteKeepsOtherLookups | hw5.py:76-78 | delete does not change what get answers for any other id |
| Store.TaskStore.constructor | hw5.py:30-35 | the store starts with exactly the four seed records, which satisfy the id invariant |
| Store.TaskStore.CreateTask | hw5.py:55-61 | the method answers as CreateOutcome and leaves the store as AfterCreate says, and it keeps the id invariant |
| Store.TaskStore.UpdateTask | hw5.py:64-71 | the method answers as UpdateOutcome and leaves the store as AfterUpdate says, and it keeps the id invariant |
| Store.TaskStore.DeleteTask | hw5.py:74-81 | the method answers as DeleteOutcome and leaves the store as AfterDelete says, and it keeps the id invariant |

## Left out

- The web framework: routing, decorators, `JSONResponse`, status codes and the `root` welcome endpoint (hw5.py:38-40). Answers are `Outcome` values.
- Schema validation of payloads and its automatic 422 answer. Inputs are taken as well-typed, and the `Optional[bool]` flags are plain booleans that default to false.
- What the `status` read at hw5.py:70 produces beyond raising: the exception's type, the response it turns into, and any attribute creation. Only the store change before it is modelled.
- Store.TaskStore.DeleteTask: the confirmation text is not formatted; the answer carries only the id and title the text is built from.
- Concurrency needs no model: no handler body awaits anything, so once a handler starts it runs to completion on the event loop, and no other request runs between its scan and its write. Modelling each operation as one sequential, atomic step is exact for these bodies.
- Object identity: the source stores the payload object itself, and update and delete change that object in place. The model stores record values in a sequence, so aliasing between a payload and a stored record is not modelled.
