/** backend/src/task.rs: the tasks of a list. */
module Tasks {
  import opened Wrappers
  import opened Seqs
  import opened Db

  function OnList(list: int): Task -> bool {
    (t: Task) => t.list == list
  }

  function HasTaskId(id: int): Task -> bool {
    (t: Task) => t.id == Some(id)
  }

  function NotTaskId(id: int): Task -> bool {
    (t: Task) => t.id != Some(id)
  }

  predicate TaskKeyTaken(tasks: seq<Task>, k: int) {
    exists t :: t in tasks && t.id == Some(k)
  }

  /** `Task::create`: one row, with the given key or a fresh one; a key already in use is
      a unique-constraint error and leaves the table unchanged. */
  method Create(db: Connection, task: Task) returns (r: QueryResult<nat>)
    requires db.Valid()
    modifies db`tasks, db`nextId
    ensures db.Valid()
    ensures r == if TasksTable in db.failing then Err(StoreFailure)
                 else if task.id.Some? && TaskKeyTaken(old(db.tasks), task.id.value) then Err(UniqueViolation)
                 else Ok(1)
    ensures var k := InsertedKey(task.id, old(db.nextId));
            if r.Ok?
            then db.tasks == old(db.tasks) + [task.(id := Some(k))] && db.nextId == NextAfter(old(db.nextId), k)
            else db.tasks == old(db.tasks) && db.nextId == old(db.nextId)
  {
    if TasksTable in db.failing {
      return Err(StoreFailure);
    }
    if task.id.Some? && exists t :: t in db.tasks && t.id == task.id {
      return Err(UniqueViolation);
    }
    var k := InsertedKey(task.id, db.nextId);
    db.tasks := db.tasks + [task.(id := Some(k))];
    db.nextId := NextAfter(db.nextId, k);
    r := Ok(1);
  }

  /** What an update with changeset `c` makes of a stored row: the key is kept, an
      optional column whose new value is None keeps its old value, every other column
      takes the new value. */
  function Changed(row: Task, c: Task): Task {
    Task(row.id, c.name, c.list,
         if c.note.Some? then c.note else row.note,
         if c.place.Some? then c.place else row.place,
         if c.members.Some? then c.members else row.members,
         c.deadline, c.subtasks, c.points, c.tags, c.done,
         if c.milestone.Some? then c.milestone else row.milestone)
  }

  /** The table after `update ... where id = c.id set c`. */
  function UpdateRows(tasks: seq<Task>, c: Task): (r: seq<Task>)
    ensures |r| == |tasks|
  {
    seq(|tasks|, k requires 0 <= k < |tasks| =>
      if tasks[k].id == c.id then Changed(tasks[k], c) else tasks[k])
  }

  /** `Task::update`: every row with the changeset's key takes the changeset; the call
      reports how many rows that was. */
  method Update(db: Connection, task: Task) returns (r: QueryResult<nat>)
    requires task.id.Some?
    requires db.Valid()
    modifies db`tasks
    ensures db.Valid()
    ensures r.Err? <==> TasksTable in db.failing
    ensures r.Err? ==> r.error == StoreFailure && db.tasks == old(db.tasks)
    ensures r.Ok? ==> db.tasks == UpdateRows(old(db.tasks), task)
                      && r.value == |Filter(old(db.tasks), HasTaskId(task.id.value))|
  {
    if TasksTable in db.failing {
      return Err(StoreFailure);
    }
    var before := db.tasks;
    r := Ok(|Filter(before, HasTaskId(task.id.value))|);
    db.tasks := UpdateRows(before, task);
    forall x | x in db.tasks ensures Below(x.id, db.nextId) {
      var k :| 0 <= k < |db.tasks| && db.tasks[k] == x;
      assert before[k] in before;
    }
  }

  /** `Task::get`: exactly the tasks of the list, in storage order. */
  function Get(db: Connection, list: int): (r: QueryResult<seq<Task>>)
    reads db`tasks
    ensures r.Err? <==> TasksTable in db.failing
    ensures r.Ok? ==> forall t :: t in r.value <==> t in db.tasks && t.list == list
    ensures r.Ok? ==> forall t :: multiset(r.value)[t] == if t.list == list then multiset(db.tasks)[t] else 0
  {
    if TasksTable in db.failing then Err(StoreFailure)
    else
      FilterMultiset(db.tasks, OnList(list));
      Ok(Filter(db.tasks, OnList(list)))
  }

  /** `Task::get_single`: the first task with that key; NotFound when there is none. */
  function GetSingle(db: Connection, id: int): (r: QueryResult<Task>)
    reads db`tasks
    ensures r.Ok? <==> TasksTable !in db.failing && exists t :: t in db.tasks && t.id == Some(id)
    ensures r.Ok? ==> r.value in db.tasks && r.value.id == Some(id)
    ensures r.Err? ==> r.error == if TasksTable in db.failing then StoreFailure else NotFound
  {
    if TasksTable in db.failing then Err(StoreFailure)
    else
      match First(db.tasks, HasTaskId(id))
      case None => Err(NotFound)
      case Some(t) => Ok(t)
  }

  /** Reading a task back after updating it yields the changeset applied to the row it
      had; a task with another key reads back as before. */
  lemma {:induction false} UpdateThenRead(tasks: seq<Task>, c: Task, id: int)
    requires c.id.Some?
    ensures First(UpdateRows(tasks, c), HasTaskId(id)) ==
            if Some(id) == c.id && First(tasks, HasTaskId(id)).Some?
            then Some(Changed(First(tasks, HasTaskId(id)).value, c))
            else First(tasks, HasTaskId(id))
    decreases |tasks|
  {
    if tasks != [] {
      UpdateThenRead(tasks[1..], c, id);
      assert UpdateRows(tasks, c)[1..] == UpdateRows(tasks[1..], c);
    }
  }

  /** `Task::delete`: removes exactly the tasks with that key and reports how many. */
  method Delete(db: Connection, id: int) returns (r: QueryResult<nat>)
    requires db.Valid()
    modifies db`tasks
    ensures db.Valid()
    ensures r.Err? <==> TasksTable in db.failing
    ensures r.Err? ==> r.error == StoreFailure && db.tasks == old(db.tasks)
    ensures r.Ok? ==> db.tasks == Filter(old(db.tasks), NotTaskId(id))
                      && r.value == |Filter(old(db.tasks), HasTaskId(id))|
    ensures forall t :: t in db.tasks <==> t in old(db.tasks) && !(r.Ok? && t.id == Some(id))
  {
    if TasksTable in db.failing {
      return Err(StoreFailure);
    }
    FilterComplementCount(db.tasks, HasTaskId(id), NotTaskId(id));
    r := Ok(|Filter(db.tasks, HasTaskId(id))|);
    db.tasks := Filter(db.tasks, NotTaskId(id));
  }
}
