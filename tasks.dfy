/** The task records of the service, the two read-only queries over the stored
    sequence, and the effect each mutating handler has on that sequence
    (hw5.py). The store object that owns the sequence is in module Store. */
module Tasks {

  /** One task record. The source's `Optional[bool]` flags are plain booleans
      whose default is false. */
  datatype Task = Task(id: int, title: string, description: string, isCompleted: bool, isDeleted: bool)

  datatype Option<+T> = None | Some(value: T)

  /** What a handler answers: a value, or one of its error responses.
      NotFound is the 404 "Not found", InvalidId the 422 "Invalid ID", and
      Raised the exception that escapes update_task after it has changed the store. */
  datatype Outcome<+T> = Ok(value: T) | NotFound | InvalidId | Raised

  /** The parts of the removed record that delete_task's confirmation message is built from. */
  datatype Removal = Removal(id: int, title: string)

  /** The four records the store holds at start-up; the fourth is already soft-deleted. */
  function Seed(): (r: seq<Task>)
    ensures |r| == 4
    ensures forall i :: 0 <= i < |r| ==> r[i].id == i + 1
    ensures forall i :: 0 <= i < |r| ==> (r[i].isDeleted <==> i == 3) && (r[i].isCompleted <==> i == 1)
  {
    [ Task(1, "First task", "First task description", false, false),
      Task(2, "Second task", "Second task description", true, false),
      Task(3, "Third task", "Third task description", false, false),
      Task(4, "Deleted task", "Deleted task description", false, true) ]
  }

  // ---------------------------------------------------------------------------
  // Searching by id
  // ---------------------------------------------------------------------------

  /** Position i holds the first record of s whose id is `id`. */
  ghost predicate IsFirstMatch(s: seq<Task>, id: int, i: int)
  {
    0 <= i < |s| && s[i].id == id && forall j :: 0 <= j < i ==> s[j].id != id
  }

  /** No record of s, deleted or not, has the id. */
  ghost predicate Absent(s: seq<Task>, id: int)
  {
    forall j :: 0 <= j < |s| ==> s[j].id != id
  }

  /** Every stored id is positive and no two stored records share an id. */
  ghost predicate IdsValid(s: seq<Task>)
  {
    (forall i :: 0 <= i < |s| ==> s[i].id > 0) &&
    (forall i, j :: 0 <= i < j < |s| ==> s[i].id != s[j].id)
  }

  /** The first-match scan over every stored record, deleted ones included,
      that get, create, update and delete share; it gives the position of the match. */
  function FindFirst(s: seq<Task>, id: int): (r: Option<nat>)
    ensures r.Some? ==> IsFirstMatch(s, id, r.value)
    ensures r.None? <==> Absent(s, id)
  {
    if s == [] then None
    else if s[0].id == id then Some(0)
    else match FindFirst(s[1..], id)
      case None => None
      case Some(k) => Some(k + 1)
  }

  // ---------------------------------------------------------------------------
  // The two queries
  // ---------------------------------------------------------------------------

  /** show_all_tasks: the stored records that are not soft-deleted, in stored order. */
  function ShowAllTasks(s: seq<Task>): (r: seq<Task>)
    ensures |r| <= |s|
    ensures forall t :: t in r ==> t in s && !t.isDeleted
  {
    if s == [] then []
    else (if s[0].isDeleted then [] else [s[0]]) + ShowAllTasks(s[1..])
  }

  /** show_task: the first record with the id, unless that record is soft-deleted
      or there is none, in which case the answer is NotFound. */
  function ShowTask(s: seq<Task>, id: int): (r: Outcome<Task>)
    ensures forall i :: IsFirstMatch(s, id, i) ==> r == (if s[i].isDeleted then NotFound else Ok(s[i]))
    ensures Absent(s, id) ==> r == NotFound
  {
    match FindFirst(s, id)
    case None => NotFound
    case Some(i) => if s[i].isDeleted then NotFound else Ok(s[i])
  }

  // ---------------------------------------------------------------------------
  // What the three mutating handlers answer and do to the stored sequence
  // ---------------------------------------------------------------------------

  /** create_task's answer: InvalidId when any stored record, deleted or not,
      already has the id, or when the id is not positive. */
  function CreateOutcome(s: seq<Task>, t: Task): (r: Outcome<()>)
    ensures r.Ok? <==> Absent(s, t.id) && t.id > 0
    ensures !r.Ok? ==> r == InvalidId
  {
    if FindFirst(s, t.id).Some? || t.id <= 0 then InvalidId else Ok(())
  }

  /** create_task's effect: the payload is appended when it is accepted. */
  function AfterCreate(s: seq<Task>, t: Task): (r: seq<Task>)
    ensures CreateOutcome(s, t).Ok? ==> |r| == |s| + 1 && r[..|s|] == s && r[|s|] == t
    ensures !CreateOutcome(s, t).Ok? ==> r == s
  {
    if CreateOutcome(s, t).Ok? then s + [t] else s
  }

  /** update_task's answer: NotFound when no record has the id; otherwise the
      read of the undeclared `status` attribute raises after the store changed. */
  function UpdateOutcome(s: seq<Task>, id: int): (r: Outcome<Task>)
    ensures !r.Ok?
    ensures r == NotFound <==> Absent(s, id)
    ensures r == Raised <==> !Absent(s, id)
  {
    if FindFirst(s, id).Some? then Raised else NotFound
  }

  /** update_task's effect: the first record with the id, deleted or not, takes
      the payload's title and description; nothing else changes. */
  function AfterUpdate(s: seq<Task>, id: int, p: Task): (r: seq<Task>)
    ensures |r| == |s|
    ensures forall j :: 0 <= j < |s| && !IsFirstMatch(s, id, j) ==> r[j] == s[j]
    ensures forall j :: IsFirstMatch(s, id, j) ==>
              r[j].title == p.title && r[j].description == p.description &&
              r[j].id == s[j].id && r[j].isCompleted == s[j].isCompleted && r[j].isDeleted == s[j].isDeleted
  {
    match FindFirst(s, id)
    case None => s
    case Some(i) => s[i := s[i].(title := p.title, description := p.description)]
  }

  /** delete_task's answer: the id and title of the first record with the id,
      deleted or not, or NotFound when there is none. */
  function DeleteOutcome(s: seq<Task>, id: int): (r: Outcome<Removal>)
    ensures r.Ok? <==> !Absent(s, id)
    ensures !r.Ok? ==> r == NotFound
    ensures forall i :: IsFirstMatch(s, id, i) ==> r == Ok(Removal(id, s[i].title))
  {
    match FindFirst(s, id)
    case None => NotFound
    case Some(i) => Ok(Removal(s[i].id, s[i].title))
  }

  /** delete_task's effect: the first record with the id is marked deleted;
      nothing else changes and nothing is removed. */
  function AfterDelete(s: seq<Task>, id: int): (r: seq<Task>)
    ensures |r| == |s|
    ensures forall j :: 0 <= j < |s| && !IsFirstMatch(s, id, j) ==> r[j] == s[j]
    ensures forall j :: IsFirstMatch(s, id, j) ==> r[j] == s[j].(isDeleted := true)
  {
    match FindFirst(s, id)
    case None => s
    case Some(i) => s[i := s[i].(isDeleted := true)]
  }
}
