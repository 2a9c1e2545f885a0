/** The `Task` class of `T_Scheduler.py`: an in-memory list of task records
    backed by a file that is rewritten after every successful add. */
module TaskStore {
  import opened Wrappers
  import opened Tasks

  /** What the `view` command shows: a notice for an empty list, otherwise
      one table row per record, in list order. */
  datatype Listing = NoTasks | Table(rows: seq<TaskRecord>)

  class TaskStore {
    /** The path of the backing file; it never changes. */
    const jsonFile: string
    /** `task_list`: the records in insertion order. */
    var taskList: seq<TaskRecord>
    /** The contents of the backing file, or `None` while it does not exist. */
    var stored: Option<seq<TaskRecord>>

    /** The list in memory is what the file holds, or empty while there is
        no file. */
    ghost predicate Valid()
      reads this
    {
      taskList == (if stored.Some? then stored.value else [])
    }

    /** `Task(json_file)`: `onDisk` is what reading the file found, `None`
        when the file does not exist, which yields an empty list. */
    constructor (jsonFile: string, onDisk: Option<seq<TaskRecord>>)
      ensures this.jsonFile == jsonFile
      ensures taskList == (if onDisk.Some? then onDisk.value else [])
      ensures stored == onDisk
      ensures Valid()
    {
      this.jsonFile := jsonFile;
      taskList := if onDisk.Some? then onDisk.value else [];
      stored := onDisk;
    }

    /** `add_task`: check title, priority and due date in that order; on
        success append a record with a fresh id and save the whole list. */
    method AddTask(title: string, description: string, dueDate: string, priority: string)
      returns (r: Result<TaskRecord, AddError>)
      modifies this
      ensures r == AddResult(old(taskList), title, description, dueDate, priority)
      ensures taskList == AfterAdd(old(taskList), title, description, dueDate, priority)
      ensures r.Ok? ==> taskList == old(taskList) + [r.value] && stored == Some(taskList)
      ensures r.Err? ==> taskList == old(taskList) && stored == old(stored)
      ensures r.Ok? ==> forall i :: 0 <= i < |old(taskList)| ==> old(taskList)[i].id < r.value.id
      ensures IdsUnique(old(taskList)) ==> IdsUnique(taskList)
      ensures WellFormed(old(taskList)) ==> WellFormed(taskList)
      ensures r.Ok? ==> Valid()
      ensures old(Valid()) ==> Valid()
    {
      if !IsValidTitle(title) {
        return Err(InvalidTitle);
      }
      if !IsValidPriority(priority) {
        return Err(InvalidPriority);
      }
      if !IsValidDueDate(dueDate) {
        return Err(InvalidDueDate);
      }
      AddKeepsIdsUnique(taskList, title, description, dueDate, priority);
      AddKeepsWellFormed(taskList, title, description, dueDate, priority);
      var nextId := NextId(taskList);
      var task := TaskRecord(nextId, title, description, dueDate, priority);
      taskList := taskList + [task];
      SaveToJson();
      r := Ok(task);
    }

    /** `save_to_json`: the file is overwritten with the whole list. */
    method SaveToJson()
      modifies this`stored
      ensures stored == Some(taskList)
      ensures Valid()
    {
      stored := Some(taskList);
    }

    /** The observable part of `view`: whether the list is empty, and if not
        the records to render, in order. */
    method View() returns (listing: Listing)
      ensures listing == NoTasks <==> taskList == []
      ensures listing.Table? ==> listing.rows == taskList
    {
      if taskList == [] {
        listing := NoTasks;
      } else {
        listing := Table(taskList);
      }
    }
  }

  /** A store opened on a missing file starts empty and shows the notice. */
  method OpenMissingFile(path: string) returns (listing: Listing)
    ensures listing == NoTasks
  {
    var store := new TaskStore(path, None);
    listing := store.View();
  }

  /** A store reopened on its file after an add holds the same list again:
      always after a successful add, and after a refused one as long as the
      file and the list agreed before. */
  method ReopenAfterAdd(store: TaskStore, title: string, description: string,
                        dueDate: string, priority: string)
    returns (r: Result<TaskRecord, AddError>, reopened: TaskStore)
    modifies store
    ensures r.Ok? ==> reopened.taskList == store.taskList
    ensures old(store.Valid()) ==> reopened.taskList == store.taskList
    ensures reopened.Valid()
  {
    r := store.AddTask(title, description, dueDate, priority);
    reopened := new TaskStore(store.jsonFile, store.stored);
  }
}
