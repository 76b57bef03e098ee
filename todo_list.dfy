/** The todo-list component as an object: its state variables are the fields
    of `TodoList`, and each event handler is a method that updates them.
    Every backend call succeeds and answers with the record it was given;
    the calls a handler makes are appended to `sent`. */
module TodoView {
  import opened Text
  import opened Todo

  /** What the delete confirmation asks about: one task (its id and, when
      the task was found, its name), the completed tasks, or all tasks. */
  datatype DeleteModal = Single(id: int, taskName: Option<string>) | CompletedTasks | AllTasks

  /** The name the single-task confirmation shows for `id`, if the task exists. */
  function NameOf(ts: seq<Task>, id: int): (r: Option<string>)
    ensures r.Some? <==> exists i :: 0 <= i < |ts| && ts[i].id == id
    ensures r.Some? ==> r.value == ts[IndexOfId(ts, id)].task
  {
    match FindById(ts, id)
    case None => None
    case Some(t) => Some(t.task)
  }

  class TodoList {
    var tasks: seq<Task>
    var newTask: string
    var loading: bool
    var apiLoading: bool
    var filter: FilterMode
    var editingTask: Option<Task>
    var alert: Option<Alert>
    var deleteModal: Option<DeleteModal>
    /** The backend calls made so far, oldest first. */
    var sent: seq<Request>

    /** The state before the first load: no tasks, still loading. */
    constructor ()
      ensures tasks == [] && newTask == "" && loading && !apiLoading && filter == All
      ensures editingTask == None && alert == None && deleteModal == None && sent == []
    {
      tasks := [];
      newTask := "";
      loading := true;
      apiLoading := false;
      filter := All;
      editingTask := None;
      alert := None;
      deleteModal := None;
      sent := [];
    }

    /** `filteredTasks`: the tasks on screen under the current filter, all of
        them tasks of the list, in list order; "all" shows the whole list,
        "completed" every done task and "active" every task not done, each as
        often as the list holds it, and nothing else. */
    function Shown(): (r: seq<Task>)
      reads this
      ensures filter == All ==> r == tasks
      ensures IsSubsequence(r, tasks)
      ensures filter == Completed ==> forall t :: t in r ==> t in tasks && t.completed
      ensures filter == Active ==> forall t :: t in r ==> t in tasks && !t.completed
      ensures forall t ::
        multiset(r)[t] == if filter == All || t.completed == (filter == Completed) then multiset(tasks)[t] else 0
    {
      ViewsPartition(tasks);
      ViewCounts(tasks, filter);
      View(tasks, filter)
    }

    /** `getAllTasks`: one GET; a list of records is normalised, a failed
        request falls back to the built-in records, and a reply that is not
        a list leaves the tasks and raises the load error. */
    method LoadTasks(response: Response)
      modifies this
      ensures response.Records? ==> tasks == Normalize(response.records) && alert == old(alert)
      ensures response.Failed? ==> tasks == Normalize(FallbackRecords) && alert == old(alert)
      ensures response.NotAList? ==> tasks == old(tasks) && alert == Some(LoadFailedAlert)
      ensures sent == old(sent) + [Get] && !loading && !apiLoading
      ensures newTask == old(newTask) && filter == old(filter)
      ensures editingTask == old(editingTask) && deleteModal == old(deleteModal)
    {
      sent := sent + [Get];
      apiLoading := false;
      match response {
        case Records(rs) => tasks := Normalize(rs);
        case Failed => tasks := Normalize(FallbackRecords);
        case NotAList => alert := Some(LoadFailedAlert);
      }
      loading := false;
    }

    /** Typing in the new-task field. */
    method SetNewTask(s: string)
      modifies this
      ensures newTask == s
      ensures tasks == old(tasks) && loading == old(loading) && apiLoading == old(apiLoading)
      ensures filter == old(filter) && editingTask == old(editingTask) && alert == old(alert)
      ensures deleteModal == old(deleteModal) && sent == old(sent)
    {
      newTask := s;
    }

    /** Pressing one of the three filter buttons. */
    method SetFilter(f: FilterMode)
      modifies this
      ensures filter == f
      ensures tasks == old(tasks) && newTask == old(newTask) && loading == old(loading)
      ensures apiLoading == old(apiLoading) && editingTask == old(editingTask) && alert == old(alert)
      ensures deleteModal == old(deleteModal) && sent == old(sent)
    {
      filter := f;
    }

    /** `isValidTask`: accepts a name that is not blank and that no task
        other than `exclude` carries up to case; otherwise shows why. */
    method IsValidTask(name: string, exclude: Option<int>) returns (ok: bool)
      modifies this
      ensures ok <==> Validate(old(tasks), name, exclude) == Accepted
      ensures alert == (if ok then old(alert) else VerdictAlert(Validate(old(tasks), name, exclude)))
      ensures tasks == old(tasks) && newTask == old(newTask) && loading == old(loading)
      ensures apiLoading == old(apiLoading) && filter == old(filter) && editingTask == old(editingTask)
      ensures deleteModal == old(deleteModal) && sent == old(sent)
    {
      var v := Validate(tasks, name, exclude);
      ok := v == Accepted;
      if !ok {
        alert := VerdictAlert(v);
      }
    }

    /** `addTask` with `id` as the new id: validation first, then the busy
        check; on success one POST, the trimmed task appended, the field
        cleared and the success alert shown. */
    method AddTask(id: int)
      modifies this
      ensures var v := Validate(old(tasks), old(newTask), None);
        if v != Accepted then
          alert == VerdictAlert(v) && tasks == old(tasks) && newTask == old(newTask)
          && apiLoading == old(apiLoading) && sent == old(sent)
        else if old(apiLoading) then
          alert == old(alert) && tasks == old(tasks) && newTask == old(newTask)
          && apiLoading && sent == old(sent)
        else
          tasks == old(tasks) + [NewTask(id, old(newTask))] && newTask == ""
          && alert == Some(AddedAlert) && !apiLoading
          && sent == old(sent) + [Post(NewTask(id, old(newTask)))]
      ensures WellFormed(old(tasks)) && (forall i :: 0 <= i < |old(tasks)| ==> old(tasks)[i].id != id)
        ==> WellFormed(tasks)
      ensures loading == old(loading) && filter == old(filter)
      ensures editingTask == old(editingTask) && deleteModal == old(deleteModal)
    {
      var ok := IsValidTask(newTask, None);
      if ok && !apiLoading {
        var name := newTask;
        AddStep(NewTask(id, name));
        assert WellFormed(old(tasks)) && (forall i :: 0 <= i < |old(tasks)| ==> old(tasks)[i].id != id)
          ==> WellFormed(tasks) by {
          if WellFormed(old(tasks)) && (forall i :: 0 <= i < |old(tasks)| ==> old(tasks)[i].id != id) {
            AddKeepsWellFormed(old(tasks), id, name);
          }
        }
      }
    }

    /** The state change of an add that goes ahead. */
    method AddStep(t: Task)
      modifies this
      ensures tasks == old(tasks) + [t] && newTask == "" && alert == Some(AddedAlert)
      ensures !apiLoading && sent == old(sent) + [Post(t)]
      ensures loading == old(loading) && filter == old(filter)
      ensures editingTask == old(editingTask) && deleteModal == old(deleteModal)
    {
      sent := sent + [Post(t)];
      apiLoading := false;
      tasks := tasks + [t];
      newTask := "";
      alert := Some(AddedAlert);
    }

    /** `toggleTask`: when idle and the id exists, one PUT of the flipped
        task, every task with the id replaced by it, and the celebration
        alert exactly when that makes every task done. */
    method ToggleTask(id: int)
      modifies this
      ensures WellFormed(old(tasks)) ==> WellFormed(tasks)
      ensures old(apiLoading) || FindById(old(tasks), id).None? ==>
        tasks == old(tasks) && alert == old(alert) && apiLoading == old(apiLoading) && sent == old(sent)
      ensures !old(apiLoading) && FindById(old(tasks), id).Some? ==>
        var u := Flip(FindById(old(tasks), id).value);
        tasks == Toggle(old(tasks), id) && sent == old(sent) + [Put(id, u)] && !apiLoading
        && alert == (if AllDoneAfterToggle(old(tasks), id) then Some(AllDoneAlert) else old(alert))
      ensures newTask == old(newTask) && loading == old(loading) && filter == old(filter)
      ensures editingTask == old(editingTask) && deleteModal == old(deleteModal)
    {
      var found := FindById(tasks, id);
      if !apiLoading && found.Some? {
        var u := Flip(found.value);
        var allDone := AllDoneAfterToggle(tasks, id);
        ToggleStep(id, u, allDone);
        assert WellFormed(old(tasks)) ==> WellFormed(tasks) by {
          if WellFormed(old(tasks)) {
            ToggleKeepsWellFormed(old(tasks), id);
          }
        }
      }
    }

    /** The state change of a toggle that goes ahead. */
    method ToggleStep(id: int, u: Task, allDone: bool)
      modifies this
      ensures tasks == Toggle(old(tasks), id) && sent == old(sent) + [Put(id, u)] && !apiLoading
      ensures alert == (if allDone then Some(AllDoneAlert) else old(alert))
      ensures newTask == old(newTask) && loading == old(loading) && filter == old(filter)
      ensures editingTask == old(editingTask) && deleteModal == old(deleteModal)
    {
      sent := sent + [Put(id, u)];
      apiLoading := false;
      tasks := Toggle(tasks, id);
      if allDone {
        alert := Some(AllDoneAlert);
      }
    }

    /** `deleteTask`: one DELETE, the tasks with other ids kept, the modal
        closed and the success alert shown. */
    method DeleteTask(id: int)
      modifies this
      ensures tasks == Without(old(tasks), id) && sent == old(sent) + [Delete(id)] && !apiLoading
      ensures deleteModal == None && alert == Some(DeletedAlert)
      ensures WellFormed(old(tasks)) ==> WellFormed(tasks)
      ensures newTask == old(newTask) && loading == old(loading) && filter == old(filter)
      ensures editingTask == old(editingTask)
    {
      sent := sent + [Delete(id)];
      apiLoading := false;
      tasks := Without(tasks, id);
      deleteModal := None;
      alert := Some(DeletedAlert);
      assert WellFormed(old(tasks)) ==> WellFormed(tasks) by {
        if WellFormed(old(tasks)) {
          DeleteKeepsWellFormed(old(tasks), id);
        }
      }
    }

    /** `deleteCompleted`: nothing at all when no task is done; otherwise one
        DELETE per completed task in list order, the active tasks kept, the
        modal closed and the success alert shown. */
    method DeleteCompleted()
      modifies this
      ensures CompletedOf(old(tasks)) == [] ==>
        tasks == old(tasks) && sent == old(sent) && apiLoading == old(apiLoading)
        && deleteModal == old(deleteModal) && alert == old(alert)
      ensures CompletedOf(old(tasks)) != [] ==>
        tasks == ActiveOf(old(tasks)) && sent == old(sent) + DeleteRequests(CompletedOf(old(tasks)))
        && !apiLoading && deleteModal == None && alert == Some(DeletedCompletedAlert)
      ensures WellFormed(old(tasks)) ==> WellFormed(tasks)
      ensures newTask == old(newTask) && loading == old(loading) && filter == old(filter)
      ensures editingTask == old(editingTask)
    {
      var completedTasks := CompletedOf(tasks);
      if |completedTasks| != 0 {
        SendDeletes(completedTasks);
        tasks := ActiveOf(tasks);
        deleteModal := None;
        alert := Some(DeletedCompletedAlert);
        assert WellFormed(old(tasks)) ==> WellFormed(tasks) by {
          if WellFormed(old(tasks)) {
            DeleteCompletedKeepsWellFormed(old(tasks));
          }
        }
      }
    }

    /** `deleteAll`: one DELETE per task in list order, the list emptied,
        the modal closed and the success alert shown. */
    method DeleteAll()
      modifies this
      ensures tasks == [] && sent == old(sent) + DeleteRequests(old(tasks))
      ensures apiLoading == (if old(tasks) == [] then old(apiLoading) else false)
      ensures deleteModal == None && alert == Some(DeletedAllAlert)
      ensures newTask == old(newTask) && loading == old(loading) && filter == old(filter)
      ensures editingTask == old(editingTask)
    {
      SendDeletes(tasks);
      tasks := [];
      deleteModal := None;
      alert := Some(DeletedAllAlert);
    }

    /** The sequential loop of DELETE calls, one per task of `ts` in order;
        the busy flag ends cleared once any call was made. */
    method SendDeletes(ts: seq<Task>)
      modifies this
      ensures sent == old(sent) + DeleteRequests(ts)
      ensures apiLoading == (if ts == [] then old(apiLoading) else false)
      ensures tasks == old(tasks) && newTask == old(newTask) && loading == old(loading)
      ensures filter == old(filter) && editingTask == old(editingTask)
      ensures deleteModal == old(deleteModal) && alert == old(alert)
    {
      var i := 0;
      while i < |ts|
        invariant 0 <= i <= |ts|
        invariant sent == old(sent) + DeleteRequests(ts[..i])
        invariant apiLoading == (if i == 0 then old(apiLoading) else false)
        invariant tasks == old(tasks) && newTask == old(newTask) && loading == old(loading)
        invariant filter == old(filter) && editingTask == old(editingTask)
        invariant deleteModal == old(deleteModal) && alert == old(alert)
      {
        assert ts[..i + 1] == ts[..i] + [ts[i]];
        sent := sent + [Delete(ts[i].id)];
        apiLoading := false;
        i := i + 1;
      }
      assert ts[..i] == ts;
    }

    /** `openEditModal`: start editing a copy of `t`. */
    method OpenEditModal(t: Task)
      modifies this
      ensures editingTask == Some(t)
      ensures tasks == old(tasks) && newTask == old(newTask) && loading == old(loading)
      ensures apiLoading == old(apiLoading) && filter == old(filter) && alert == old(alert)
      ensures deleteModal == old(deleteModal) && sent == old(sent)
    {
      editingTask := Some(t);
    }

    /** Typing in the edit field renames the copy being edited, if any. */
    method EditName(name: string)
      modifies this
      ensures editingTask == (if old(editingTask).Some? then Some(old(editingTask).value.(task := name)) else None)
      ensures tasks == old(tasks) && newTask == old(newTask) && loading == old(loading)
      ensures apiLoading == old(apiLoading) && filter == old(filter) && alert == old(alert)
      ensures deleteModal == old(deleteModal) && sent == old(sent)
    {
      if editingTask.Some? {
        editingTask := Some(editingTask.value.(task := name));
      }
    }

    /** The edit modal's cancel button. */
    method CancelEdit()
      modifies this
      ensures editingTask == None
      ensures tasks == old(tasks) && newTask == old(newTask) && loading == old(loading)
      ensures apiLoading == old(apiLoading) && filter == old(filter) && alert == old(alert)
      ensures deleteModal == old(deleteModal) && sent == old(sent)
    {
      editingTask := None;
    }

    /** `updateTask`: nothing without an edit in progress or while busy;
        an invalid name only raises its alert; otherwise one PUT, the edit
        committed with its name trimmed, the modal closed and the success
        alert shown. */
    method UpdateTask()
      modifies this
      ensures WellFormed(old(tasks)) ==> WellFormed(tasks)
      ensures old(editingTask).None? || old(apiLoading) ==>
        tasks == old(tasks) && editingTask == old(editingTask) && alert == old(alert)
        && apiLoading == old(apiLoading) && sent == old(sent)
      ensures old(editingTask).Some? && !old(apiLoading) ==>
        var e := old(editingTask).value;
        var v := Validate(old(tasks), e.task, Some(e.id));
        if v != Accepted then
          tasks == old(tasks) && editingTask == old(editingTask) && alert == VerdictAlert(v)
          && apiLoading == old(apiLoading) && sent == old(sent)
        else
          tasks == CommitEdit(old(tasks), e) && editingTask == None && alert == Some(UpdatedAlert)
          && !apiLoading && sent == old(sent) + [Put(e.id, e.(task := Trim(e.task)))]
      ensures newTask == old(newTask) && loading == old(loading) && filter == old(filter)
      ensures deleteModal == old(deleteModal)
    {
      if editingTask.Some? && !apiLoading {
        var e := editingTask.value;
        var ok := IsValidTask(e.task, Some(e.id));
        if ok {
          CommitStep(e);
          assert WellFormed(old(tasks)) ==> WellFormed(tasks) by {
            if WellFormed(old(tasks)) {
              CommitEditKeepsWellFormed(old(tasks), e);
            }
          }
        }
      }
    }

    /** The state change of an edit that passed validation. */
    method CommitStep(e: Task)
      modifies this
      ensures tasks == CommitEdit(old(tasks), e) && editingTask == None && alert == Some(UpdatedAlert)
      ensures !apiLoading && sent == old(sent) + [Put(e.id, e.(task := Trim(e.task)))]
      ensures newTask == old(newTask) && loading == old(loading) && filter == old(filter)
      ensures deleteModal == old(deleteModal)
    {
      sent := sent + [Put(e.id, e.(task := Trim(e.task)))];
      apiLoading := false;
      tasks := CommitEdit(tasks, e);
      editingTask := None;
      alert := Some(UpdatedAlert);
    }

    /** The trash button of the task `id`: ask to confirm deleting it. */
    method AskDeleteOne(id: int)
      modifies this
      ensures deleteModal == Some(Single(id, NameOf(tasks, id)))
      ensures tasks == old(tasks) && newTask == old(newTask) && loading == old(loading)
      ensures apiLoading == old(apiLoading) && filter == old(filter) && alert == old(alert)
      ensures editingTask == old(editingTask) && sent == old(sent)
    {
      deleteModal := Some(Single(id, NameOf(tasks, id)));
    }

    /** The "delete completed" button: ask to confirm. */
    method AskDeleteCompleted()
      modifies this
      ensures deleteModal == Some(CompletedTasks)
      ensures tasks == old(tasks) && newTask == old(newTask) && loading == old(loading)
      ensures apiLoading == old(apiLoading) && filter == old(filter) && alert == old(alert)
      ensures editingTask == old(editingTask) && sent == old(sent)
    {
      deleteModal := Some(CompletedTasks);
    }

    /** The "delete all" button: ask to confirm. */
    method AskDeleteAll()
      modifies this
      ensures deleteModal == Some(AllTasks)
      ensures tasks == old(tasks) && newTask == old(newTask) && loading == old(loading)
      ensures apiLoading == old(apiLoading) && filter == old(filter) && alert == old(alert)
      ensures editingTask == old(editingTask) && sent == old(sent)
    {
      deleteModal := Some(AllTasks);
    }

    /** The confirmation's cancel button. */
    method CancelDelete()
      modifies this
      ensures deleteModal == None
      ensures tasks == old(tasks) && newTask == old(newTask) && loading == old(loading)
      ensures apiLoading == old(apiLoading) && filter == old(filter) && alert == old(alert)
      ensures editingTask == old(editingTask) && sent == old(sent)
    {
      deleteModal := None;
    }

    /** The confirmation's delete button, dispatching on what is asked: a
        single task is deleted only when its id is not 0 (the id is tested
        for truthiness); no open modal does nothing. */
    method ConfirmDelete()
      modifies this
      ensures old(deleteModal).None? || (old(deleteModal).value.Single? && old(deleteModal).value.id == 0) ==>
        tasks == old(tasks) && sent == old(sent) && deleteModal == old(deleteModal)
        && alert == old(alert) && apiLoading == old(apiLoading)
      ensures old(deleteModal).Some? && old(deleteModal).value.Single? && old(deleteModal).value.id != 0 ==>
        tasks == Without(old(tasks), old(deleteModal).value.id) && deleteModal == None
        && sent == old(sent) + [Delete(old(deleteModal).value.id)] && alert == Some(DeletedAlert)
        && !apiLoading
      ensures old(deleteModal) == Some(CompletedTasks) && CompletedOf(old(tasks)) != [] ==>
        tasks == ActiveOf(old(tasks)) && deleteModal == None
        && sent == old(sent) + DeleteRequests(CompletedOf(old(tasks))) && alert == Some(DeletedCompletedAlert)
        && !apiLoading
      ensures old(deleteModal) == Some(CompletedTasks) && CompletedOf(old(tasks)) == [] ==>
        tasks == old(tasks) && deleteModal == old(deleteModal) && sent == old(sent) && alert == old(alert)
        && apiLoading == old(apiLoading)
      ensures old(deleteModal) == Some(AllTasks) ==>
        tasks == [] && deleteModal == None
        && sent == old(sent) + DeleteRequests(old(tasks)) && alert == Some(DeletedAllAlert)
        && apiLoading == (if old(tasks) == [] then old(apiLoading) else false)
      ensures WellFormed(old(tasks)) ==> WellFormed(tasks)
      ensures newTask == old(newTask) && loading == old(loading) && filter == old(filter)
      ensures editingTask == old(editingTask)
    {
      match deleteModal
      case None =>
      case Some(m) =>
        match m
        case Single(id, _) =>
          if id != 0 {
            DeleteTask(id);
          }
        case CompletedTasks => DeleteCompleted();
        case AllTasks => DeleteAll();
    }
  }
}
