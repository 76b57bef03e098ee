/** The values and pure computations of the todo-list view: the Task record,
    name validation, the list updates the handlers perform, the filter views
    and the normalisation of backend records. The stateful component itself
    is the class TodoView.TodoList. */
module Todo {
  import opened Text

  datatype Option<T> = None | Some(value: T)

  /** A to-do item: an id, its display name and whether it is done. */
  datatype Task = Task(id: int, task: string, completed: bool)

  // ---------------------------------------------------------------------
  // Alerts
  // ---------------------------------------------------------------------

  datatype AlertKind = Success | Error | Warning

  /** The banner shown above the list. */
  datatype Alert = Alert(message: string, kind: AlertKind)

  const EmptyNameAlert := Alert("Tên công việc không được để trống", Error)
  const DuplicateNameAlert := Alert("Tên công việc không được trùng", Error)
  const AddedAlert := Alert("Thêm công việc thành công!", Success)
  const AllDoneAlert := Alert("Hoàn thành tất cả công việc! 🎉", Success)
  const DeletedAlert := Alert("Đã xóa công việc!", Success)
  const DeletedCompletedAlert := Alert("Đã xóa tất cả công việc hoàn thành!", Success)
  const DeletedAllAlert := Alert("Đã xóa tất cả công việc!", Success)
  const UpdatedAlert := Alert("Cập nhật công việc thành công!", Success)
  const LoadFailedAlert := Alert("Lỗi khi tải dữ liệu", Error)

  // ---------------------------------------------------------------------
  // Requests sent to the backend
  // ---------------------------------------------------------------------

  /** One call of the REST helpers: a GET of the collection, a POST of a new
      record, a PUT of a whole record under its id, a DELETE by id. */
  datatype Request = Get | Post(body: Task) | Put(id: int, body: Task) | Delete(id: int)

  /** The DELETE calls a sequential loop over `ts` issues, one per task, in order. */
  function DeleteRequests(ts: seq<Task>): (rs: seq<Request>)
    ensures |rs| == |ts|
    ensures forall k :: 0 <= k < |ts| ==> rs[k] == Delete(ts[k].id)
  {
    seq(|ts|, k requires 0 <= k < |ts| => Delete(ts[k].id))
  }

  // ---------------------------------------------------------------------
  // Name validation
  // ---------------------------------------------------------------------

  /** The form under which names are compared: trimmed and lower-cased. */
  function Key(name: string): string
  {
    Lower(Trim(name))
  }

  /** Task `t` blocks the candidate `name`: its stored name, lower-cased,
      equals the candidate trimmed and lower-cased, and its id is not the
      one being excluded. The stored name is not trimmed. */
  predicate Clashes(t: Task, name: string, exclude: Option<int>)
  {
    Lower(t.task) == Key(name) && exclude != Some(t.id)
  }

  /** Whether some task blocks the candidate name (the list's `some`). */
  function AnyClash(ts: seq<Task>, name: string, exclude: Option<int>): (r: bool)
    ensures r <==> exists i :: 0 <= i < |ts| && Clashes(ts[i], name, exclude)
  {
    if ts == [] then false
    else
      assert forall i :: 1 <= i < |ts| ==> ts[1..][i - 1] == ts[i];
      Clashes(ts[0], name, exclude) || AnyClash(ts[1..], name, exclude)
  }

  /** The outcome of `isValidTask`. */
  datatype Verdict = Accepted | EmptyName | DuplicateName

  /** `isValidTask(name, idToExclude)` against the list `ts`: a blank name is
      rejected first, then a name some other task already carries. */
  function Validate(ts: seq<Task>, name: string, exclude: Option<int>): Verdict
  {
    if Trim(name) == [] then EmptyName
    else if AnyClash(ts, name, exclude) then DuplicateName
    else Accepted
  }

  /** A name is refused as empty exactly when it is blank, refused as a
      duplicate exactly when it is not blank and some task not excluded
      blocks it, and accepted exactly when neither holds. */
  lemma ValidateCases(ts: seq<Task>, name: string, exclude: Option<int>)
    ensures Validate(ts, name, exclude) == EmptyName <==> IsBlank(name)
    ensures Validate(ts, name, exclude) == DuplicateName <==>
      !IsBlank(name) && exists i :: 0 <= i < |ts| && Clashes(ts[i], name, exclude)
    ensures Validate(ts, name, exclude) == Accepted <==>
      !IsBlank(name) && forall i :: 0 <= i < |ts| ==> !Clashes(ts[i], name, exclude)
  {
    TrimEmptyIffBlank(name);
  }

  /** The alert `isValidTask` shows for a verdict, if any. */
  function VerdictAlert(v: Verdict): (a: Option<Alert>)
    ensures a.None? <==> v == Accepted
  {
    match v
    case Accepted => None
    case EmptyName => Some(EmptyNameAlert)
    case DuplicateName => Some(DuplicateNameAlert)
  }

  /** The key of a trimmed name is the name lower-cased. */
  lemma KeyOfTrimmed(s: string)
    requires IsTrimmed(s)
    ensures Key(s) == Lower(s)
  {
    TrimOfTrimmed(s);
  }

  /** The key of a one-character name that is not white space. */
  lemma KeyOfOneChar(s: string)
    requires |s| == 1 && !IsSpace(s[0])
    ensures Key(s) == [LowerChar(s[0])]
  {
    KeyOfTrimmed(s);
    LowerOfOneChar(s);
  }

  /** Add "A" while "a" exists: rejected as a duplicate. */
  lemma DuplicateAddScenario()
    ensures Validate([Task(1, "a", false)], "A", None) == DuplicateName
    ensures VerdictAlert(DuplicateName) == Some(Alert("Tên công việc không được trùng", Error))
  {
    assert !IsSpace("A"[0]);
    KeyOfOneChar("A");
    assert LowerChar('A') == 'a';
    LowerOfOneChar("a");
    assert LowerChar('a') == 'a';
    assert Clashes([Task(1, "a", false)][0], "A", None);
  }

  // ---------------------------------------------------------------------
  // List updates
  // ---------------------------------------------------------------------

  /** The record `addTask` creates: the trimmed name, not yet done. */
  function NewTask(id: int, name: string): Task
  {
    Task(id, Trim(name), false)
  }

  /** Every task with the given id replaced by `u`, the others kept (a `map` over the list). */
  function ReplaceById(ts: seq<Task>, id: int, u: Task): (r: seq<Task>)
    ensures |r| == |ts|
    ensures forall i :: 0 <= i < |ts| ==> r[i] == if ts[i].id == id then u else ts[i]
  {
    if ts == [] then []
    else [if ts[0].id == id then u else ts[0]] + ReplaceById(ts[1..], id, u)
  }

  /** The position of the first task with the given id, or -1 when there is none. */
  function IndexOfId(ts: seq<Task>, id: int): (k: int)
    ensures -1 <= k < |ts|
    ensures k == -1 <==> forall i :: 0 <= i < |ts| ==> ts[i].id != id
    ensures 0 <= k ==> ts[k].id == id && forall j :: 0 <= j < k ==> ts[j].id != id
  {
    if ts == [] then -1
    else if ts[0].id == id then 0
    else
      var k := IndexOfId(ts[1..], id);
      assert forall i :: 1 <= i < |ts| ==> ts[1..][i - 1] == ts[i];
      if k == -1 then -1 else k + 1
  }

  /** The first task with the given id, as the list's `find` returns it. */
  function FindById(ts: seq<Task>, id: int): (r: Option<Task>)
    ensures r.None? <==> forall i :: 0 <= i < |ts| ==> ts[i].id != id
    ensures r.Some? ==> r.value == ts[IndexOfId(ts, id)] && r.value.id == id
  {
    var k := IndexOfId(ts, id);
    if k == -1 then None else Some(ts[k])
  }

  /** The task with its completion flag inverted. */
  function Flip(t: Task): Task
  {
    t.(completed := !t.completed)
  }

  /** The list `toggleTask(id)` leaves: unchanged when no task has the id;
      otherwise every task with the id is replaced by the first of them with
      its flag inverted. */
  function Toggle(ts: seq<Task>, id: int): seq<Task>
  {
    match FindById(ts, id)
    case None => ts
    case Some(t) => ReplaceById(ts, id, Flip(t))
  }

  /** Whether every task of the list before the update is done, reading the
      flag of `u` in place of each task with the given id. */
  function EveryDoneWith(ts: seq<Task>, id: int, u: Task): bool
  {
    if ts == [] then true
    else (if ts[0].id == id then u.completed else ts[0].completed) && EveryDoneWith(ts[1..], id, u)
  }

  /** Whether `toggleTask(id)` shows the "all completed" alert. */
  function AllDoneAfterToggle(ts: seq<Task>, id: int): bool
  {
    match FindById(ts, id)
    case None => false
    case Some(t) => EveryDoneWith(ts, id, Flip(t)) && Flip(t).completed
  }

  predicate AllCompleted(ts: seq<Task>)
  {
    forall i :: 0 <= i < |ts| ==> ts[i].completed
  }

  /** No two tasks share an id. */
  predicate UniqueIds(ts: seq<Task>)
  {
    forall i, j :: 0 <= i < j < |ts| ==> ts[i].id != ts[j].id
  }

  /** Toggling an id no task has changes nothing; otherwise the length is
      kept, tasks with other ids are untouched, and each task with the id
      becomes the first such task with its flag inverted. */
  lemma ToggleShape(ts: seq<Task>, id: int)
    ensures FindById(ts, id).None? ==> Toggle(ts, id) == ts
    ensures |Toggle(ts, id)| == |ts|
    ensures forall i :: 0 <= i < |ts| && ts[i].id != id ==> Toggle(ts, id)[i] == ts[i]
    ensures forall i :: 0 <= i < |ts| && ts[i].id == id ==>
      Toggle(ts, id)[i] == Flip(ts[IndexOfId(ts, id)])
  {
  }

  /** With unique ids, toggling flips exactly the task carrying the id. */
  lemma ToggleFlipsOnlyMatching(ts: seq<Task>, id: int)
    requires UniqueIds(ts)
    ensures |Toggle(ts, id)| == |ts|
    ensures forall i :: 0 <= i < |ts| ==>
      Toggle(ts, id)[i] == if ts[i].id == id then Flip(ts[i]) else ts[i]
  {
    ToggleShape(ts, id);
  }

  /** Toggling the same id twice restores the list, when ids are unique.
      (With a repeated id the first toggle copies one task over the others,
      and the second cannot undo that.) */
  lemma ToggleTwice(ts: seq<Task>, id: int)
    requires UniqueIds(ts)
    ensures Toggle(Toggle(ts, id), id) == ts
  {
    var r := Toggle(ts, id);
    ToggleFlipsOnlyMatching(ts, id);
    assert UniqueIds(r) by {
      forall i, j | 0 <= i < j < |r| ensures r[i].id != r[j].id {
        assert r[i].id == ts[i].id && r[j].id == ts[j].id;
      }
    }
    ToggleFlipsOnlyMatching(r, id);
    var rr := Toggle(r, id);
    assert |rr| == |ts|;
    forall i | 0 <= i < |ts| ensures rr[i] == ts[i] {
      assert r[i].id == ts[i].id;
    }
  }

  /** The `every` over the old list with the updated task substituted is the
      same as every task of the updated list being done. */
  lemma {:induction false} EveryDoneWithIsAllCompleted(ts: seq<Task>, id: int, u: Task)
    ensures EveryDoneWith(ts, id, u) <==> AllCompleted(ReplaceById(ts, id, u))
  {
    if ts != [] {
      EveryDoneWithIsAllCompleted(ts[1..], id, u);
      var r := ReplaceById(ts, id, u);
      assert r[1..] == ReplaceById(ts[1..], id, u);
      assert AllCompleted(r) <==> r[0].completed && AllCompleted(r[1..]) by {
        if r[0].completed && AllCompleted(r[1..]) {
          forall i | 0 <= i < |r| ensures r[i].completed {
            if i > 0 { assert r[i] == r[1..][i - 1]; }
          }
        }
      }
    }
  }

  /** The "all completed" alert fires exactly when the toggled task was not
      done before (so it is done now) and every task of the updated list is
      done. */
  lemma AllDoneAlertIff(ts: seq<Task>, id: int)
    ensures AllDoneAfterToggle(ts, id) <==>
      FindById(ts, id).Some? && !FindById(ts, id).value.completed && AllCompleted(Toggle(ts, id))
  {
    match FindById(ts, id)
    case None =>
    case Some(t) => EveryDoneWithIsAllCompleted(ts, id, Flip(t));
  }

  /** The verdict for a name does not depend on the tasks carrying the
      excluded id: replacing them, whatever their names, changes nothing. */
  lemma ValidateIgnoresExcludedTask(ts: seq<Task>, name: string, id: int, u: Task)
    requires u.id == id
    ensures Validate(ReplaceById(ts, id, u), name, Some(id)) == Validate(ts, name, Some(id))
  {
    var r := ReplaceById(ts, id, u);
    forall i | 0 <= i < |ts| ensures Clashes(r[i], name, Some(id)) == Clashes(ts[i], name, Some(id)) {
      if ts[i].id == id {
        assert !Clashes(r[i], name, Some(id)) && !Clashes(ts[i], name, Some(id));
      } else {
        assert r[i] == ts[i];
      }
    }
    assert AnyClash(r, name, Some(id)) == AnyClash(ts, name, Some(id));
  }

  /** A name once added is refused the second time, and so is every name
      equal to it once trimmed and lower-cased. */
  lemma RepeatedAddRejected(ts: seq<Task>, id: int, name: string, again: string)
    requires Validate(ts, name, None) == Accepted
    requires Key(again) == Key(name)
    ensures Validate(ts + [NewTask(id, name)], again, None) == DuplicateName
  {
    ValidateCases(ts, name, None);
    var r := ts + [NewTask(id, name)];
    ValidateCases(r, again, None);
    TrimEmptyIffBlank(name);
    TrimEmptyIffBlank(again);
    assert Clashes(r[|ts|], again, None);
  }

  // ---------------------------------------------------------------------
  // Filtering: deletes and views
  // ---------------------------------------------------------------------

  /** The tasks satisfying `p`, in order (the list's `filter`). */
  function Filter(ts: seq<Task>, p: Task -> bool): (r: seq<Task>)
    ensures |r| <= |ts|
    ensures forall t :: t in r ==> t in ts && p(t)
  {
    if ts == [] then []
    else (if p(ts[0]) then [ts[0]] else []) + Filter(ts[1..], p)
  }

  /** `a` occurs in `b` in order, possibly with gaps (matched greedily). */
  predicate IsSubsequence(a: seq<Task>, b: seq<Task>)
  {
    if a == [] then true
    else if b == [] then false
    else if a[0] == b[0] then IsSubsequence(a[1..], b[1..])
    else IsSubsequence(a, b[1..])
  }

  /** Filtering keeps the relative order of what it keeps. */
  lemma {:induction false} FilterIsSubsequence(ts: seq<Task>, p: Task -> bool)
    ensures IsSubsequence(Filter(ts, p), ts)
  {
    if ts != [] {
      FilterIsSubsequence(ts[1..], p);
      var rest := Filter(ts[1..], p);
      if p(ts[0]) {
        assert Filter(ts, p) == [ts[0]] + rest;
        assert ([ts[0]] + rest)[1..] == rest;
      } else {
        assert Filter(ts, p) == rest;
        assert rest != [] ==> rest[0] in rest;
      }
    }
  }

  /** A filter keeps every copy of a task that passes and none that fails. */
  lemma {:induction false} FilterCount(ts: seq<Task>, p: Task -> bool, t: Task)
    ensures multiset(Filter(ts, p))[t] == if p(t) then multiset(ts)[t] else 0
  {
    if ts != [] {
      FilterCount(ts[1..], p, t);
      assert ts == [ts[0]] + ts[1..];
      assert multiset(ts) == multiset([ts[0]]) + multiset(ts[1..]);
    }
  }

  /** The tasks whose id differs from `id`: what deleting one task keeps. */
  function Without(ts: seq<Task>, id: int): seq<Task>
  {
    Filter(ts, (t: Task) => t.id != id)
  }

  /** The completed tasks. */
  function CompletedOf(ts: seq<Task>): seq<Task>
  {
    Filter(ts, (t: Task) => t.completed)
  }

  /** The active tasks: what deleting the completed ones keeps. */
  function ActiveOf(ts: seq<Task>): seq<Task>
  {
    Filter(ts, (t: Task) => !t.completed)
  }

  /** Deleting one id keeps exactly the tasks with other ids, every copy of
      each, in their original order. */
  lemma DeleteOneKeepsOthers(ts: seq<Task>, id: int)
    ensures IsSubsequence(Without(ts, id), ts)
    ensures forall t :: t in Without(ts, id) ==> t.id != id
    ensures forall t :: multiset(Without(ts, id))[t] == if t.id != id then multiset(ts)[t] else 0
  {
    FilterIsSubsequence(ts, (t: Task) => t.id != id);
    forall t ensures multiset(Without(ts, id))[t] == if t.id != id then multiset(ts)[t] else 0 {
      FilterCount(ts, (t: Task) => t.id != id, t);
    }
  }

  /** Deleting the completed tasks leaves no completed task and keeps every
      active one, in order; with nothing completed it keeps the whole list. */
  lemma DeleteCompletedKeepsActive(ts: seq<Task>)
    ensures IsSubsequence(ActiveOf(ts), ts)
    ensures forall t :: t in ActiveOf(ts) ==> !t.completed
    ensures forall t: Task :: !t.completed ==> multiset(ActiveOf(ts))[t] == multiset(ts)[t]
    ensures CompletedOf(ts) == [] ==> ActiveOf(ts) == ts
  {
    FilterIsSubsequence(ts, (t: Task) => !t.completed);
    forall t ensures multiset(ActiveOf(ts))[t] == if !t.completed then multiset(ts)[t] else 0 {
      FilterCount(ts, (t: Task) => !t.completed, t);
      FilterCount(ts, (t: Task) => t.completed, t);
    }
    if CompletedOf(ts) == [] {
      forall t ensures multiset(ActiveOf(ts))[t] == multiset(ts)[t] {
        FilterCount(ts, (t: Task) => t.completed, t);
      }
      assert multiset(ActiveOf(ts)) == multiset(ts);
      SubsequenceOfSameSize(ActiveOf(ts), ts);
    }
  }

  /** Every list occurs in itself. */
  lemma {:induction false} SubsequenceOfSelf(s: seq<Task>)
    ensures IsSubsequence(s, s)
  {
    if s != [] {
      SubsequenceOfSelf(s[1..]);
    }
  }

  /** A subsequence as long as the whole is the whole. */
  lemma {:induction false} SubsequenceOfSameSize(a: seq<Task>, b: seq<Task>)
    requires IsSubsequence(a, b) && |a| == |b|
    ensures a == b
  {
    if a != [] {
      if a[0] == b[0] {
        SubsequenceOfSameSize(a[1..], b[1..]);
        assert a == [a[0]] + a[1..] && b == [b[0]] + b[1..];
      } else {
        SubsequenceNoLonger(a, b[1..]);
      }
    }
  }

  /** A subsequence is no longer than the sequence it occurs in. */
  lemma {:induction false} SubsequenceNoLonger(a: seq<Task>, b: seq<Task>)
    requires IsSubsequence(a, b)
    ensures |a| <= |b|
  {
    if a != [] {
      if a[0] == b[0] {
        SubsequenceNoLonger(a[1..], b[1..]);
      } else {
        SubsequenceNoLonger(a, b[1..]);
      }
    }
  }

  /** The three filter buttons. */
  datatype FilterMode = All | Active | Completed

  /** `filteredTasks`: the tasks shown under the current filter. */
  function View(ts: seq<Task>, f: FilterMode): seq<Task>
  {
    match f
    case All => ts
    case Completed => CompletedOf(ts)
    case Active => ActiveOf(ts)
  }

  /** "All" shows the list itself; "Completed" and "Active" are in-order
      subsequences that share no task, that together hold every task as often
      as the list does, and whose sizes (the numbers on the buttons) add up to
      the size of the list. */
  lemma ViewsPartition(ts: seq<Task>)
    ensures View(ts, All) == ts && IsSubsequence(View(ts, All), ts)
    ensures IsSubsequence(View(ts, Completed), ts) && IsSubsequence(View(ts, Active), ts)
    ensures forall t :: t in View(ts, Completed) ==> t.completed && t !in View(ts, Active)
    ensures forall t :: t in View(ts, Active) ==> !t.completed
    ensures multiset(View(ts, Completed)) + multiset(View(ts, Active)) == multiset(ts)
    ensures |View(ts, Completed)| + |View(ts, Active)| == |View(ts, All)|
  {
    SubsequenceOfSelf(ts);
    FilterIsSubsequence(ts, (t: Task) => t.completed);
    FilterIsSubsequence(ts, (t: Task) => !t.completed);
    SplitByCompletion(ts);
    assert |multiset(CompletedOf(ts)) + multiset(ActiveOf(ts))| == |multiset(ts)|;
  }

  /** Each view holds every task it lets through exactly as often as the list
      does, and no other task. */
  lemma ViewCounts(ts: seq<Task>, f: FilterMode)
    ensures forall t ::
      multiset(View(ts, f))[t] == if f == All || t.completed == (f == Completed) then multiset(ts)[t] else 0
  {
    forall t ensures multiset(View(ts, f))[t] ==
      (if f == All || t.completed == (f == Completed) then multiset(ts)[t] else 0)
    {
      match f
      case All =>
      case Completed => FilterCount(ts, (t: Task) => t.completed, t);
      case Active => FilterCount(ts, (t: Task) => !t.completed, t);
    }
  }

  /** The completed and the active tasks together are the whole list. */
  lemma {:induction false} SplitByCompletion(ts: seq<Task>)
    ensures multiset(CompletedOf(ts)) + multiset(ActiveOf(ts)) == multiset(ts)
  {
    if ts != [] {
      var x, tl := ts[0], ts[1..];
      SplitByCompletion(tl);
      assert ts == [x] + tl;
      if x.completed {
        assert CompletedOf(ts) == [x] + CompletedOf(tl);
        assert ActiveOf(ts) == ActiveOf(tl);
      } else {
        assert CompletedOf(ts) == CompletedOf(tl);
        assert ActiveOf(ts) == [x] + ActiveOf(tl);
      }
    }
  }

  /** Two tasks, one done: the "Completed" view shows only the done one. */
  lemma CompletedViewScenario()
    ensures View([Task(1, "A", false), Task(2, "B", true)], Completed) == [Task(2, "B", true)]
  {
    var ts := [Task(1, "A", false), Task(2, "B", true)];
    assert ts[1..][1..] == [];
  }

  // ---------------------------------------------------------------------
  // Normalisation of backend records
  // ---------------------------------------------------------------------

  /** The JSON values a record field may hold; `Absent` is a missing field. */
  datatype Json = JBool(b: bool) | JString(s: string) | JNumber(n: int) | JNull | Absent

  /** A record as the backend sends it: the name may come as `task` or as
      `name`, and the flag as a boolean or as a string. */
  datatype RawRecord = RawRecord(id: int, task: Option<string>, name: Option<string>, completed: Json)

  /** The flag reads as done for the boolean true and for the string "hoan thanh" only. */
  predicate IsDone(v: Json)
  {
    v == JBool(true) || v == JString("hoan thanh")
  }

  /** The `task` field when it is a non-empty string, otherwise the `name` field (a missing one read as ""). */
  function RawName(r: RawRecord): string
  {
    if r.task.Some? && r.task.value != "" then r.task.value
    else if r.name.Some? then r.name.value
    else ""
  }

  /** The `map` of `getAllTasks` onto the canonical Task shape. */
  function Normalize(rs: seq<RawRecord>): (ts: seq<Task>)
    ensures |ts| == |rs|
    ensures forall i :: 0 <= i < |rs| ==>
      ts[i].id == rs[i].id && ts[i].task == RawName(rs[i]) && ts[i].completed == IsDone(rs[i].completed)
  {
    if rs == [] then []
    else [Task(rs[0].id, RawName(rs[0]), IsDone(rs[0].completed))] + Normalize(rs[1..])
  }

  /** The record the component itself sends in a POST or PUT body. */
  function ToRecord(t: Task): RawRecord
  {
    RawRecord(t.id, Some(t.task), None, JBool(t.completed))
  }

  /** The flag is set exactly for `true` and for "hoan thanh"; the name is
      `task` when that is non-empty and `name` otherwise. */
  lemma NormalizeRecordFields(r: RawRecord)
    ensures Normalize([r])[0].completed <==> r.completed == JBool(true) || r.completed == JString("hoan thanh")
    ensures r.task.Some? && r.task.value != "" ==> Normalize([r])[0].task == r.task.value
    ensures (r.task.None? || r.task.value == "") && r.name.Some? ==> Normalize([r])[0].task == r.name.value
  {
  }

  /** Records written by this component read back as the same tasks, as long
      as no name is empty (an empty `task` falls through to the missing `name`). */
  lemma {:induction false} NormalizeRoundTrip(ts: seq<Task>)
    requires forall i :: 0 <= i < |ts| ==> ts[i].task != ""
    ensures Normalize(seq(|ts|, i requires 0 <= i < |ts| => ToRecord(ts[i]))) == ts
  {
    var rs := seq(|ts|, i requires 0 <= i < |ts| => ToRecord(ts[i]));
    var ns := Normalize(rs);
    forall i | 0 <= i < |ts| ensures ns[i] == ts[i] {
      assert rs[i] == ToRecord(ts[i]);
    }
  }

  /** The data `getTasks` returns when the request or the JSON decoding fails. */
  const FallbackRecords: seq<RawRecord> := [
    RawRecord(1, Some("Quet nha"), None, JBool(false)),
    RawRecord(2, Some("giat quan ao"), None, JBool(true)),
    RawRecord(3, Some("nau com"), None, JBool(false)),
    RawRecord(4, Some("nấu"), None, JBool(false))
  ]

  /** The fallback data normalises to four tasks, the second one done. */
  lemma FallbackTasks()
    ensures Normalize(FallbackRecords) ==
      [Task(1, "Quet nha", false), Task(2, "giat quan ao", true), Task(3, "nau com", false), Task(4, "nấu", false)]
  {
  }

  /** What `getTasks` hands back: a decoded array, a decoded value that is
      not an array (so `map` throws), or a failed request. */
  datatype Response = Records(records: seq<RawRecord>) | NotAList | Failed

  // ---------------------------------------------------------------------
  // Committing an edit, and the uniqueness of names
  // ---------------------------------------------------------------------

  /** The commit of an edit as the source writes it: every task with the
      edited id replaced by the edited copy, its name stored as typed. */
  function CommitEditAsWritten(ts: seq<Task>, e: Task): seq<Task>
  {
    ReplaceById(ts, e.id, e)
  }

  /** The commit of an edit with the name stored trimmed, as adding does. */
  function CommitEdit(ts: seq<Task>, e: Task): seq<Task>
  {
    ReplaceById(ts, e.id, e.(task := Trim(e.task)))
  }

  /** Stored names are trimmed. */
  predicate AllTrimmed(ts: seq<Task>)
  {
    forall i :: 0 <= i < |ts| ==> IsTrimmed(ts[i].task)
  }

  /** No value occurs twice. */
  predicate Distinct<T(==)>(s: seq<T>)
  {
    forall i, j :: 0 <= i < j < |s| ==> s[i] != s[j]
  }

  /** The names of the tasks, trimmed and lower-cased, in list order. */
  function KeysOf(ts: seq<Task>): (ks: seq<string>)
    ensures |ks| == |ts|
  {
    seq(|ts|, i requires 0 <= i < |ts| => Key(ts[i].task))
  }

  /** No two tasks carry names equal once trimmed and lower-cased. */
  predicate DistinctNames(ts: seq<Task>)
  {
    Distinct(KeysOf(ts))
  }

  /** The invariant the validation exists to keep: ids are unique, stored
      names are trimmed, and no two names are equal once trimmed and lower-cased. */
  predicate WellFormed(ts: seq<Task>)
  {
    UniqueIds(ts) && AllTrimmed(ts) && DistinctNames(ts)
  }

  /** Appending a new value keeps a sequence free of repeats. */
  lemma DistinctAppend<T>(s: seq<T>, v: T)
    requires Distinct(s) && v !in s
    ensures Distinct(s + [v])
  {
    var r := s + [v];
    forall i, j | 0 <= i < j < |r| ensures r[i] != r[j] {
      assert r[i] == s[i];
      if j < |s| { assert r[j] == s[j]; }
    }
  }

  /** Putting a new value in front keeps a sequence free of repeats. */
  lemma DistinctCons<T>(v: T, s: seq<T>)
    requires Distinct(s) && v !in s
    ensures Distinct([v] + s)
  {
    var r := [v] + s;
    forall i, j | 0 <= i < j < |r| ensures r[i] != r[j] {
      assert r[j] == s[j - 1];
      if 0 < i { assert r[i] == s[i - 1]; }
    }
  }

  /** Overwriting one position with a value found at no other keeps a
      sequence free of repeats. */
  lemma DistinctUpdate<T>(s: seq<T>, k: int, v: T)
    requires Distinct(s) && 0 <= k < |s|
    requires forall i :: 0 <= i < |s| && i != k ==> s[i] != v
    ensures Distinct(s[k := v])
  {
  }

  /** A sequence free of repeats has a tail free of repeats, not holding the head. */
  lemma DistinctSplit<T>(s: seq<T>)
    requires Distinct(s) && s != []
    ensures Distinct(s[1..]) && s[0] !in s[1..]
  {
    assert forall i :: 0 <= i < |s| - 1 ==> s[1..][i] == s[i + 1];
  }

  /** Over trimmed names, the duplicate check refuses exactly the names equal,
      trimmed and lower-cased, to the name of a task that is not excluded. */
  lemma DuplicateMeansSameKey(ts: seq<Task>, name: string, exclude: Option<int>)
    requires AllTrimmed(ts)
    ensures Validate(ts, name, exclude) == DuplicateName <==>
      !IsBlank(name) && exists i :: 0 <= i < |ts| && Key(ts[i].task) == Key(name) && exclude != Some(ts[i].id)
  {
    ValidateCases(ts, name, exclude);
    forall i | 0 <= i < |ts| ensures Key(ts[i].task) == Lower(ts[i].task) {
      TrimOfTrimmed(ts[i].task);
    }
  }

  /** An accepted name differs, trimmed and lower-cased, from the name of
      every task whose id is not excluded. */
  lemma AcceptedKeyIsNew(ts: seq<Task>, name: string, exclude: Option<int>)
    requires AllTrimmed(ts)
    requires Validate(ts, name, exclude) == Accepted
    ensures forall k :: 0 <= k < |ts| && exclude != Some(ts[k].id) ==> KeysOf(ts)[k] != Key(name)
  {
    ValidateCases(ts, name, exclude);
    forall k | 0 <= k < |ts| && exclude != Some(ts[k].id) ensures KeysOf(ts)[k] != Key(name) {
      TrimOfTrimmed(ts[k].task);
      assert !Clashes(ts[k], name, exclude);
    }
  }

  /** A list with the same ids and names, position by position, as a
      well-formed list is well formed. */
  lemma SameIdsAndNamesKeepWellFormed(ts: seq<Task>, r: seq<Task>)
    requires WellFormed(ts)
    requires |r| == |ts| && forall i :: 0 <= i < |ts| ==> r[i].id == ts[i].id && r[i].task == ts[i].task
    ensures WellFormed(r)
  {
    assert KeysOf(r) == KeysOf(ts);
  }

  /** The keys of a longer list extend the keys of the shorter one. */
  lemma KeysOfAppend(ts: seq<Task>, n: Task)
    ensures KeysOf(ts + [n]) == KeysOf(ts) + [Key(n.task)]
  {
    var r := ts + [n];
    assert forall i :: 0 <= i < |ts| ==> r[i] == ts[i];
  }

  /** The keys of a list with a task in front. */
  lemma KeysOfCons(x: Task, rest: seq<Task>)
    ensures KeysOf([x] + rest) == [Key(x.task)] + KeysOf(rest)
  {
    var r := [x] + rest;
    assert forall i :: 0 < i < |r| ==> r[i] == rest[i - 1];
  }

  /** The keys of the tail are the tail of the keys. */
  lemma KeysOfTail(ts: seq<Task>)
    requires ts != []
    ensures KeysOf(ts[1..]) == KeysOf(ts)[1..]
  {
    var tl := ts[1..];
    forall i | 0 <= i < |tl| ensures KeysOf(tl)[i] == KeysOf(ts)[1..][i] {
      assert tl[i] == ts[i + 1];
    }
  }

  /** The keys of a list with one task overwritten. */
  lemma KeysOfUpdate(ts: seq<Task>, k: int, u: Task)
    requires 0 <= k < |ts|
    ensures KeysOf(ts[k := u]) == KeysOf(ts)[k := Key(u.task)]
  {
  }

  /** Appending a task with a fresh id keeps ids unique. */
  lemma AppendKeepsUniqueIds(ts: seq<Task>, n: Task)
    requires UniqueIds(ts)
    requires forall i :: 0 <= i < |ts| ==> ts[i].id != n.id
    ensures UniqueIds(ts + [n])
  {
    var r := ts + [n];
    assert forall i :: 0 <= i < |ts| ==> r[i] == ts[i];
  }

  /** Appending a task with a trimmed name keeps names trimmed. */
  lemma AppendKeepsAllTrimmed(ts: seq<Task>, n: Task)
    requires AllTrimmed(ts) && IsTrimmed(n.task)
    ensures AllTrimmed(ts + [n])
  {
    var r := ts + [n];
    assert forall i :: 0 <= i < |ts| ==> r[i] == ts[i];
  }

  /** Putting a task with a fresh id in front keeps ids unique. */
  lemma ConsKeepsUniqueIds(x: Task, rest: seq<Task>)
    requires UniqueIds(rest)
    requires forall i :: 0 <= i < |rest| ==> rest[i].id != x.id
    ensures UniqueIds([x] + rest)
  {
    var r := [x] + rest;
    assert forall i :: 0 < i < |r| ==> r[i] == rest[i - 1];
  }

  /** Putting a task with a trimmed name in front keeps names trimmed. */
  lemma ConsKeepsAllTrimmed(x: Task, rest: seq<Task>)
    requires AllTrimmed(rest) && IsTrimmed(x.task)
    ensures AllTrimmed([x] + rest)
  {
    var r := [x] + rest;
    assert forall i :: 0 < i < |r| ==> r[i] == rest[i - 1];
  }

  /** Overwriting a task by one with the same id keeps ids unique. */
  lemma UpdateKeepsUniqueIds(ts: seq<Task>, k: int, u: Task)
    requires UniqueIds(ts) && 0 <= k < |ts| && u.id == ts[k].id
    ensures UniqueIds(ts[k := u])
  {
  }

  /** Overwriting a task by one with a trimmed name keeps names trimmed. */
  lemma UpdateKeepsAllTrimmed(ts: seq<Task>, k: int, u: Task)
    requires AllTrimmed(ts) && 0 <= k < |ts| && IsTrimmed(u.task)
    ensures AllTrimmed(ts[k := u])
  {
  }

  /** A task with a fresh id and a trimmed, new name can be appended. */
  lemma AppendKeepsWellFormed(ts: seq<Task>, n: Task)
    requires WellFormed(ts) && IsTrimmed(n.task)
    requires forall i :: 0 <= i < |ts| ==> ts[i].id != n.id
    requires forall k :: 0 <= k < |ts| ==> KeysOf(ts)[k] != Key(n.task)
    ensures WellFormed(ts + [n])
  {
    AppendKeepsUniqueIds(ts, n);
    AppendKeepsAllTrimmed(ts, n);
    DistinctAppend(KeysOf(ts), Key(n.task));
    KeysOfAppend(ts, n);
  }

  /** A task with a fresh id and a trimmed, new name can be put in front. */
  lemma ConsKeepsWellFormed(x: Task, rest: seq<Task>)
    requires WellFormed(rest) && IsTrimmed(x.task)
    requires forall i :: 0 <= i < |rest| ==> rest[i].id != x.id
    requires Key(x.task) !in KeysOf(rest)
    ensures WellFormed([x] + rest)
  {
    ConsKeepsUniqueIds(x, rest);
    ConsKeepsAllTrimmed(x, rest);
    DistinctCons(Key(x.task), KeysOf(rest));
    KeysOfCons(x, rest);
  }

  /** One task may be overwritten by a task with the same id and a trimmed
      name that no other task carries. */
  lemma UpdateKeepsWellFormed(ts: seq<Task>, k: int, u: Task)
    requires WellFormed(ts) && 0 <= k < |ts| && u.id == ts[k].id && IsTrimmed(u.task)
    requires forall i :: 0 <= i < |ts| && i != k ==> KeysOf(ts)[i] != Key(u.task)
    ensures WellFormed(ts[k := u])
  {
    UpdateKeepsUniqueIds(ts, k, u);
    UpdateKeepsAllTrimmed(ts, k, u);
    DistinctUpdate(KeysOf(ts), k, Key(u.task));
    KeysOfUpdate(ts, k, u);
  }

  /** An accepted name, once trimmed, is trimmed and differs in key from
      every task that is not excluded. */
  lemma AcceptedNameFits(ts: seq<Task>, name: string, exclude: Option<int>)
    requires AllTrimmed(ts)
    requires Validate(ts, name, exclude) == Accepted
    ensures IsTrimmed(Trim(name))
    ensures forall k :: 0 <= k < |ts| && exclude != Some(ts[k].id) ==> KeysOf(ts)[k] != Key(Trim(name))
  {
    TrimIsTrimmed(name);
    TrimIdempotent(name);
    AcceptedKeyIsNew(ts, name, exclude);
  }

  /** Adding an accepted name under a fresh id keeps the invariant. */
  lemma AddKeepsWellFormed(ts: seq<Task>, id: int, name: string)
    requires WellFormed(ts)
    requires Validate(ts, name, None) == Accepted
    requires forall i :: 0 <= i < |ts| ==> ts[i].id != id
    ensures WellFormed(ts + [NewTask(id, name)])
  {
    AcceptedNameFits(ts, name, None);
    AppendKeepsWellFormed(ts, NewTask(id, name));
  }

  /** Toggling keeps the invariant. */
  lemma ToggleKeepsWellFormed(ts: seq<Task>, id: int)
    requires WellFormed(ts)
    ensures WellFormed(Toggle(ts, id))
  {
    ToggleFlipsOnlyMatching(ts, id);
    SameIdsAndNamesKeepWellFormed(ts, Toggle(ts, id));
  }

  /** Committing an accepted edit with the name trimmed keeps the invariant. */
  lemma CommitEditKeepsWellFormed(ts: seq<Task>, e: Task)
    requires WellFormed(ts)
    requires Validate(ts, e.task, Some(e.id)) == Accepted
    ensures WellFormed(CommitEdit(ts, e))
  {
    var u := e.(task := Trim(e.task));
    var k := IndexOfId(ts, e.id);
    if k == -1 {
      assert CommitEdit(ts, e) == ts;
    } else {
      assert forall i :: 0 <= i < |ts| && i != k ==> ts[i].id != e.id;
      assert CommitEdit(ts, e) == ts[k := u];
      AcceptedNameFits(ts, e.task, Some(e.id));
      UpdateKeepsWellFormed(ts, k, u);
    }
  }

  /** The comparison key of a task of the list occurs among the list's keys. */
  lemma KeyOfMember(ts: seq<Task>, t: Task)
    requires t in ts
    ensures Key(t.task) in KeysOf(ts)
  {
    var k :| 0 <= k < |ts| && ts[k] == t;
    assert KeysOf(ts)[k] == Key(t.task);
  }

  /** The tail of a list with unique ids has unique ids, none of them the head's. */
  lemma TailUniqueIds(ts: seq<Task>)
    requires UniqueIds(ts) && ts != []
    ensures UniqueIds(ts[1..])
    ensures forall t :: t in ts[1..] ==> t.id != ts[0].id
  {
    var tl := ts[1..];
    assert forall i :: 0 <= i < |tl| ==> tl[i] == ts[i + 1];
  }

  /** The tail of a list of trimmed names has trimmed names. */
  lemma TailAllTrimmed(ts: seq<Task>)
    requires AllTrimmed(ts) && ts != []
    ensures AllTrimmed(ts[1..])
  {
    var tl := ts[1..];
    assert forall i :: 0 <= i < |tl| ==> tl[i] == ts[i + 1];
  }

  /** The tail of a list of distinct names has distinct names, none of them
      the head's. */
  lemma TailDistinctNames(ts: seq<Task>)
    requires DistinctNames(ts) && ts != []
    ensures DistinctNames(ts[1..])
    ensures Key(ts[0].task) !in KeysOf(ts[1..])
  {
    DistinctSplit(KeysOf(ts));
    KeysOfTail(ts);
  }

  /** The tail of a well-formed list is well formed, and its head shares
      neither id nor name with any task of the tail. */
  lemma TailWellFormed(ts: seq<Task>)
    requires WellFormed(ts) && ts != []
    ensures WellFormed(ts[1..])
    ensures forall t :: t in ts[1..] ==> t.id != ts[0].id
    ensures Key(ts[0].task) !in KeysOf(ts[1..])
  {
    TailUniqueIds(ts);
    TailAllTrimmed(ts);
    TailDistinctNames(ts);
  }

  /** Any filter of the list, so every delete, keeps the invariant. */
  lemma {:induction false} FilterKeepsWellFormed(ts: seq<Task>, p: Task -> bool)
    requires WellFormed(ts)
    ensures WellFormed(Filter(ts, p))
  {
    if ts != [] {
      var x, tl := ts[0], ts[1..];
      var rest := Filter(tl, p);
      TailWellFormed(ts);
      FilterKeepsWellFormed(tl, p);
      if p(x) {
        assert forall i :: 0 <= i < |rest| ==> rest[i] in tl;
        assert Key(x.task) !in KeysOf(rest) by {
          if Key(x.task) in KeysOf(rest) {
            var j :| 0 <= j < |rest| && KeysOf(rest)[j] == Key(x.task);
            KeyOfMember(tl, rest[j]);
          }
        }
        ConsKeepsWellFormed(x, rest);
        assert Filter(ts, p) == [x] + rest;
      } else {
        assert Filter(ts, p) == rest;
      }
    }
  }

  /** Deleting one task keeps the invariant. */
  lemma DeleteKeepsWellFormed(ts: seq<Task>, id: int)
    requires WellFormed(ts)
    ensures WellFormed(Without(ts, id))
  {
    FilterKeepsWellFormed(ts, (t: Task) => t.id != id);
  }

  /** Deleting the completed tasks keeps the invariant. */
  lemma DeleteCompletedKeepsWellFormed(ts: seq<Task>)
    requires WellFormed(ts)
    ensures WellFormed(ActiveOf(ts))
  {
    FilterKeepsWellFormed(ts, (t: Task) => !t.completed);
  }

  /** The names used below: `a` is one character that is not white space,
      and `padded` is that character followed by white space. */
  predicate PaddedPair(a: string, padded: string)
  {
    |a| == 1 && !IsSpace(a[0]) && |padded| == 2 && padded[0] == a[0] && IsSpace(padded[1])
  }

  /** The padded name trims to the plain one, and the two keys agree. */
  lemma PaddedPairKeys(a: string, padded: string)
    requires PaddedPair(a, padded)
    ensures Trim(padded) == a && Trim(a) == a
    ensures Key(padded) == Key(a) == Lower(a)
    ensures Lower(padded) != Key(a)
  {
    TrimOneCharAndSpace(padded);
    assert padded[..1] == a;
    TrimOfTrimmed(a);
    KeyOfTrimmed(a);
    assert |Lower(padded)| == 2;
  }

  /** A one-task list whose name is trimmed is well formed. */
  lemma OneTaskWellFormed(b: Task)
    requires IsTrimmed(b.task)
    ensures WellFormed([b])
  {
    assert |KeysOf([b])| == 1;
  }

  /** Renaming the only task to the padded name is accepted. */
  lemma PaddedRenameAccepted(b: Task, a: string, padded: string)
    requires PaddedPair(a, padded)
    ensures Validate([b], padded, Some(b.id)) == Accepted
  {
    assert !IsSpace(padded[0]);
    assert !Clashes([b][0], padded, Some(b.id));
    ValidateCases([b], padded, Some(b.id));
  }

  /** After the rename is stored as typed, adding the plain name is accepted. */
  lemma AddAfterPaddedRenameAccepted(b: Task, a: string, padded: string)
    requires PaddedPair(a, padded)
    ensures Validate(CommitEditAsWritten([b], b.(task := padded)), a, None) == Accepted
  {
    PaddedPairKeys(a, padded);
    assert CommitEditAsWritten([b], b.(task := padded)) == [b.(task := padded)];
    assert !IsSpace(a[0]);
    assert !Clashes([b.(task := padded)][0], a, None);
  }

  /** Storing the edited name untrimmed lets a duplicate in: once the only
      task is renamed to a name with trailing white space, which the edit
      validation accepts, and the bare name is added, which the add
      validation accepts, the list holds two tasks whose names are equal
      once trimmed and lower-cased. */
  lemma CommitEditAsWrittenAdmitsDuplicate(b: Task, a: string, padded: string, id: int)
    requires PaddedPair(a, padded)
    ensures !DistinctNames(CommitEditAsWritten([b], b.(task := padded)) + [NewTask(id, a)])
  {
    PaddedPairKeys(a, padded);
    assert CommitEditAsWritten([b], b.(task := padded)) == [b.(task := padded)];
    var dup := [b.(task := padded)] + [NewTask(id, a)];
    assert dup[0] == b.(task := padded) && dup[1] == NewTask(id, a);
    assert KeysOf(dup)[0] == KeysOf(dup)[1];
  }

  /** With the edited name stored trimmed, the same add is refused. */
  lemma AddAfterTrimmedRenameRefused(b: Task, a: string, padded: string)
    requires PaddedPair(a, padded)
    ensures Validate(CommitEdit([b], b.(task := padded)), a, None) == DuplicateName
  {
    PaddedPairKeys(a, padded);
    assert CommitEdit([b], b.(task := padded)) == [b.(task := a)];
    assert !IsSpace(a[0]);
    assert Clashes([b.(task := a)][0], a, None);
  }

  /** The whole counterexample in one: from a well-formed one-task list, the
      rename to the padded name passes the edit validation and leaves the names
      distinct, the bare name then passes the add validation, and after the add
      two names are equal once trimmed and lower-cased, so the list is not well
      formed. */
  lemma EditThenAddBreaksInvariant(b: Task, a: string, padded: string, id: int)
    requires PaddedPair(a, padded) && IsTrimmed(b.task)
    ensures WellFormed([b])
    ensures Validate([b], padded, Some(b.id)) == Accepted
    ensures DistinctNames(CommitEditAsWritten([b], b.(task := padded)))
    ensures Validate(CommitEditAsWritten([b], b.(task := padded)), a, None) == Accepted
    ensures !DistinctNames(CommitEditAsWritten([b], b.(task := padded)) + [NewTask(id, a)])
    ensures !WellFormed(CommitEditAsWritten([b], b.(task := padded)) + [NewTask(id, a)])
  {
    OneTaskWellFormed(b);
    assert CommitEditAsWritten([b], b.(task := padded)) == [b.(task := padded)];
    assert |KeysOf([b.(task := padded)])| == 1;
    PaddedRenameAccepted(b, a, padded);
    AddAfterPaddedRenameAccepted(b, a, padded);
    CommitEditAsWrittenAdmitsDuplicate(b, a, padded, id);
  }

  /** The concrete case: the task "b" renamed to "a " and then "a" added. */
  lemma RenameToPaddedScenario()
    ensures PaddedPair("a", "a ") && IsTrimmed("b")
  {
    assert !IsSpace("a"[0]) && IsSpace("a "[1]) && !IsSpace("b"[0]);
  }
}
