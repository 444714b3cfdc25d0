/** The command layer of the task tracker: each command loads the whole
    collection from the store file, applies at most one change and writes the
    whole collection back only when a task was added, found for editing, or
    removed. */
module TaskStore {
  import opened TaskModel
  import opened TaskExport

  /** What a command reports to the user. */
  datatype Outcome = Added(id: nat) | Updated | Marked(status: string) | Deleted | NotFound

  /** The store file `tasks.json`; `file` is None while the file does not exist. */
  class Store {
    var file: Option<seq<Task>>

    /** A working directory without a store file. */
    constructor ()
      ensures file == None && Load() == []
    {
      file := None;
    }

    /** The collection the store file holds; an absent file reads as empty. */
    function Load(): (tasks: seq<Task>)
      reads this
      ensures file.None? ==> tasks == []
      ensures file.Some? ==> tasks == file.value
    {
      if file.None? then [] else file.value
    }

    /** Overwrites the store file with the whole collection. */
    method Save(tasks: seq<Task>)
      modifies this
      ensures file == Some(tasks)
    {
      file := Some(tasks);
    }

    /** The add command: appends a "todo" task with the next id, taking its two
        timestamps from two readings of the clock, and saves. */
    method AddTask(description: string, createdAt: Timestamp, updatedAt: Timestamp) returns (outcome: Outcome)
      modifies this
      ensures outcome == Added(NextId(old(Load())))
      ensures file == Some(Add(old(Load()), description, createdAt, updatedAt))
      ensures UniqueIds(old(Load())) ==> UniqueIds(Load())
    {
      var tasks := Load();
      var newId := NextId(tasks);
      tasks := Add(tasks, description, createdAt, updatedAt);
      Save(tasks);
      outcome := Added(newId);
    }

    /** The loop shared by update and mark: edits the first task carrying the id
        and saves at once; when no task carries it, nothing is written. */
    method EditFirstMatch(id: int, e: Edit, now: Timestamp) returns (found: bool)
      modifies this
      ensures found == HasId(old(Load()), id)
      ensures found ==> file == Some(EditFirst(old(Load()), id, e, now))
      ensures !found ==> file == old(file)
    {
      var tasks := Load();
      var i := 0;
      while i < |tasks|
        invariant 0 <= i <= |tasks|
        invariant tasks == old(Load()) && file == old(file)
        invariant forall k :: 0 <= k < i ==> tasks[k].id != id
      {
        if tasks[i].id == id {
          EditFirstAt(tasks, id, e, now, i);
          tasks := tasks[i := Apply(tasks[i], e, now)];
          Save(tasks);
          return true;
        }
        i := i + 1;
      }
      return false;
    }

    /** The update command: new description and refreshed updatedAt for the first
        task with the id, or NotFound and no write. */
    method UpdateTask(id: int, description: string, now: Timestamp) returns (outcome: Outcome)
      modifies this
      ensures HasId(old(Load()), id) ==>
        outcome == Updated && file == Some(EditFirst(old(Load()), id, Describe(description), now))
      ensures !HasId(old(Load()), id) ==> outcome == NotFound && file == old(file)
      ensures UniqueIds(old(Load())) ==> UniqueIds(Load())
    {
      var found := EditFirstMatch(id, Describe(description), now);
      outcome := if found then Updated else NotFound;
    }

    /** The mark commands: any status string is written into the first task with
        the id and updatedAt refreshed, or NotFound and no write. */
    method MarkTask(id: int, status: string, now: Timestamp) returns (outcome: Outcome)
      modifies this
      ensures HasId(old(Load()), id) ==>
        outcome == Marked(status) && file == Some(EditFirst(old(Load()), id, Mark(status), now))
      ensures !HasId(old(Load()), id) ==> outcome == NotFound && file == old(file)
      ensures UniqueIds(old(Load())) ==> UniqueIds(Load())
    {
      var found := EditFirstMatch(id, Mark(status), now);
      outcome := if found then Marked(status) else NotFound;
    }

    /** The delete command: drops every task with the id; an unchanged length
        means not found, and then nothing is written. */
    method DeleteTask(id: int) returns (outcome: Outcome)
      modifies this
      ensures HasId(old(Load()), id) ==> outcome == Deleted && file == Some(Delete(old(Load()), id))
      ensures !HasId(old(Load()), id) ==> outcome == NotFound && file == old(file)
      ensures UniqueIds(old(Load())) ==> UniqueIds(Load())
    {
      var tasks := Load();
      var remaining := Delete(tasks, id);
      DeleteNotFound(tasks, id);
      if UniqueIds(tasks) {
        DeleteKeepsUnique(tasks, id);
      }
      if |remaining| == |tasks| {
        outcome := NotFound;
      } else {
        Save(remaining);
        outcome := Deleted;
      }
    }

    /** The list command: the loaded tasks the filter selects, in order. */
    method ListTasks(filter: Option<string>) returns (shown: seq<Task>)
      ensures shown == List(Load(), filter)
    {
      shown := List(Load(), filter);
    }

    /** The export command's content; the store file is not written. */
    method ExportTasks() returns (report: ExportResult)
      ensures report == Export(Load())
    {
      report := Export(Load());
    }
  }

  /** The walk-through of a fresh store: add, mark in progress, list by status,
      delete, export. */
  method Walkthrough(t1: Timestamp, t2: Timestamp, t3: Timestamp) {
    var store := new Store();
    var o := store.AddTask("buy milk", t1, t1);
    assert o == Added(1);
    assert store.Load() == [Task(1, "buy milk", Todo, t1, t1)];
    o := store.MarkTask(1, InProgress, t2);
    assert HasId([Task(1, "buy milk", Todo, t1, t1)], 1);
    assert o == Marked(InProgress);
    var marked := Task(1, "buy milk", InProgress, t1, t2);
    assert store.Load() == [marked];
    var shown := store.ListTasks(Some(InProgress));
    assert shown == [marked];
    shown := store.ListTasks(Some(Done));
    assert shown == [];
    o := store.DeleteTask(1);
    assert HasId([marked], 1);
    assert o == Deleted;
    shown := store.ListTasks(None);
    assert shown == [];
    var report := store.ExportTasks();
    assert report == NothingToExport;
    o := store.AddTask("a", t3, t3);
    assert o == Added(1);
  }
}
