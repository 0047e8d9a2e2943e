/** The module-level `tasks` list of hw5.py as an object: the seed is loaded
    by the constructor, and create, update and delete change the stored
    sequence as the handlers do. The read-only handlers are the functions
    ShowAllTasks and ShowTask of module Tasks applied to `tasks`. */
module Store {
  import opened Tasks
  import TaskProperties

  class TaskStore {
    var tasks: seq<Task>

    /** Stored ids are positive and distinct. */
    ghost predicate Valid()
      reads this
    {
      IdsValid(tasks)
    }

    /** The store as the service starts: the four seed records. */
    constructor ()
      ensures tasks == Seed()
      ensures Valid()
    {
      tasks := Seed();
      TaskProperties.SeedIdsValid();
    }

    /** create_task: append the payload unless its id is taken by any stored
        record, deleted or not, or is not positive. */
    method CreateTask(newTask: Task) returns (r: Outcome<()>)
      modifies this
      ensures r == CreateOutcome(old(tasks), newTask)
      ensures tasks == AfterCreate(old(tasks), newTask)
      ensures old(Valid()) ==> Valid()
    {
      if old(Valid()) {
        TaskProperties.CreateGuardIsInvariant(tasks, newTask);
      }
      var nonUnique := FindFirst(tasks, newTask.id);
      if nonUnique.Some? || newTask.id <= 0 {
        return InvalidId;
      }
      tasks := tasks + [newTask];
      r := Ok(());
    }

    /** update_task: overwrite the title, then the description, of the first
        record with the id. The next statement of the source reads an
        attribute the record does not have, so a found id ends in Raised. */
    method UpdateTask(id: int, updatedTask: Task) returns (r: Outcome<Task>)
      modifies this
      ensures r == UpdateOutcome(old(tasks), id)
      ensures tasks == AfterUpdate(old(tasks), id, updatedTask)
      ensures old(Valid()) ==> Valid()
    {
      TaskProperties.UpdateKeepsIds(tasks, id, updatedTask);
      var found := FindFirst(tasks, id);
      match found
      case None =>
        r := NotFound;
      case Some(i) =>
        tasks := tasks[i := tasks[i].(title := updatedTask.title)];
        tasks := tasks[i := tasks[i].(description := updatedTask.description)];
        r := Raised;
    }

    /** delete_task: mark the first record with the id deleted and answer
        with its id and title. */
    method DeleteTask(id: int) returns (r: Outcome<Removal>)
      modifies this
      ensures r == DeleteOutcome(old(tasks), id)
      ensures tasks == AfterDelete(old(tasks), id)
      ensures old(Valid()) ==> Valid()
    {
      TaskProperties.DeleteKeepsIds(tasks, id);
      var found := FindFirst(tasks, id);
      match found
      case None =>
        r := NotFound;
      case Some(i) =>
        tasks := tasks[i := tasks[i].(isDeleted := true)];
        r := Ok(Removal(tasks[i].id, tasks[i].title));
    }
  }
}
