/** The task records held by the store in `T_Scheduler.py`, the three input
    checks of `add_task`, the id it assigns and the list it leaves behind. */
module Tasks {
  import opened Wrappers
  import Dates

  /** One task: the five keys of the dictionary `add_task` builds. */
  datatype TaskRecord = TaskRecord(
    id: int,
    title: string,
    description: string,
    dueDate: string,
    priority: string)

  /** The three `ValueError`s `add_task` raises, in the order it checks. */
  datatype AddError = InvalidTitle | InvalidPriority | InvalidDueDate

  /** The text of each `ValueError`, which the `add` command shows the user. */
  function Message(e: AddError): string
  {
    match e
    case InvalidTitle => "Title can't be empty!"
    case InvalidPriority => "Priority must be 'Low', 'Medium', or 'High'"
    case InvalidDueDate => "Due date must be in the following format: YYYY-MM-DD"
  }

  const Priorities: seq<string> := ["Low", "Medium", "High"]

  /** `not title` is true exactly for the empty string, so every other
      title passes, a title of only spaces included. */
  function IsValidTitle(title: string): (ok: bool)
    ensures ok <==> |title| >= 1
  {
    title != ""
  }

  /** Membership in the list of priorities, compared exactly, with case. */
  function IsValidPriority(priority: string): (ok: bool)
    ensures ok <==> priority == "Low" || priority == "Medium" || priority == "High"
  {
    priority in Priorities
  }

  /** `strptime` with `%Y-%m-%d` does not raise; `ValidDueDateIff` says
      which texts those are. */
  predicate IsValidDueDate(dueDate: string)
  {
    Dates.ParseDate(dueDate).Some?
  }

  /** A due date passes exactly when it is a four-digit year, a month and a
      day of one or two digits each, joined by dashes, naming a real date. */
  lemma ValidDueDateIff(dueDate: string)
    ensures IsValidDueDate(dueDate) <==> Dates.IsDateText(dueDate)
  {
    Dates.ParseDateIffDateText(dueDate);
  }

  /** The first check of title, priority and due date that fails, if any. */
  function Validate(title: string, priority: string, dueDate: string): (r: Option<AddError>)
    ensures r == None <==> IsValidTitle(title) && IsValidPriority(priority) && IsValidDueDate(dueDate)
    ensures r == Some(InvalidTitle) <==> !IsValidTitle(title)
    ensures r == Some(InvalidPriority) <==> IsValidTitle(title) && !IsValidPriority(priority)
    ensures r == Some(InvalidDueDate) <==>
              IsValidTitle(title) && IsValidPriority(priority) && !IsValidDueDate(dueDate)
  {
    if !IsValidTitle(title) then Some(InvalidTitle)
    else if !IsValidPriority(priority) then Some(InvalidPriority)
    else if !IsValidDueDate(dueDate) then Some(InvalidDueDate)
    else None
  }

  /** The largest id in the list, or 0 (the `default` of the `max`) when the
      list is empty. */
  function MaxId(tasks: seq<TaskRecord>): (m: int)
    ensures tasks == [] ==> m == 0
    ensures forall i :: 0 <= i < |tasks| ==> tasks[i].id <= m
    ensures tasks != [] ==> exists i :: 0 <= i < |tasks| && tasks[i].id == m
  {
    if |tasks| == 0 then 0
    else if |tasks| == 1 then tasks[0].id
    else
      var rest := MaxId(tasks[1..]);
      assert forall i :: 1 <= i < |tasks| ==> tasks[i] == tasks[1..][i - 1];
      if tasks[0].id > rest then tasks[0].id else rest
  }

  /** The id `add_task` gives a new task: one more than the largest id in
      the list, or 1 for an empty list. */
  function NextId(tasks: seq<TaskRecord>): (n: int)
    ensures tasks == [] ==> n == 1
    ensures forall i :: 0 <= i < |tasks| ==> tasks[i].id < n
    ensures tasks != [] ==> exists i :: 0 <= i < |tasks| && tasks[i].id + 1 == n
  {
    MaxId(tasks) + 1
  }

  /** What `add_task` returns or raises when called on the list `tasks`. */
  function AddResult(tasks: seq<TaskRecord>, title: string, description: string,
                     dueDate: string, priority: string): (r: Result<TaskRecord, AddError>)
    ensures r.Ok? <==> IsValidTitle(title) && IsValidPriority(priority) && IsValidDueDate(dueDate)
    ensures r.Err? ==> Validate(title, priority, dueDate) == Some(r.error)
    ensures r.Ok? ==> r.value.title == title && r.value.description == description
                      && r.value.dueDate == dueDate && r.value.priority == priority
    ensures r.Ok? ==> forall i :: 0 <= i < |tasks| ==> tasks[i].id < r.value.id
    ensures r.Ok? && tasks == [] ==> r.value.id == 1
  {
    match Validate(title, priority, dueDate)
    case Some(e) => Err(e)
    case None => Ok(TaskRecord(NextId(tasks), title, description, dueDate, priority))
  }

  /** The task list after `add_task`: one record longer on success, the same
      list after any of the three errors. */
  function AfterAdd(tasks: seq<TaskRecord>, title: string, description: string,
                    dueDate: string, priority: string): (after: seq<TaskRecord>)
    ensures AddResult(tasks, title, description, dueDate, priority).Err? ==> after == tasks
    ensures AddResult(tasks, title, description, dueDate, priority).Ok? ==>
              |after| == |tasks| + 1 && after[..|tasks|] == tasks
              && after[|tasks|] == AddResult(tasks, title, description, dueDate, priority).value
  {
    match AddResult(tasks, title, description, dueDate, priority)
    case Ok(t) => tasks + [t]
    case Err(_) => tasks
  }

  // Invariants of a task list

  predicate IdsUnique(tasks: seq<TaskRecord>)
  {
    forall i, j :: 0 <= i < |tasks| && 0 <= j < |tasks| && i != j ==> tasks[i].id != tasks[j].id
  }

  predicate IdsIncreasing(tasks: seq<TaskRecord>)
  {
    forall i, j :: 0 <= i < j < |tasks| ==> tasks[i].id < tasks[j].id
  }

  /** A record that passed the checks of `add_task` when it was created. */
  predicate IsValidRecord(t: TaskRecord)
  {
    t.id >= 1 && IsValidTitle(t.title) && IsValidPriority(t.priority) && IsValidDueDate(t.dueDate)
  }

  /** Every list that `add_task` builds from an empty file is in this shape. */
  predicate WellFormed(tasks: seq<TaskRecord>)
  {
    IdsIncreasing(tasks) && forall i :: 0 <= i < |tasks| ==> IsValidRecord(tasks[i])
  }

  /** Ids in increasing order are pairwise distinct. */
  lemma IncreasingIdsAreUnique(tasks: seq<TaskRecord>)
    requires IdsIncreasing(tasks)
    ensures IdsUnique(tasks)
  {
  }

  /** Whatever the list held before, a successful add does not reuse an id. */
  lemma AddKeepsIdsUnique(tasks: seq<TaskRecord>, title: string, description: string,
                          dueDate: string, priority: string)
    ensures IdsUnique(tasks) ==> IdsUnique(AfterAdd(tasks, title, description, dueDate, priority))
  {
  }

  /** A successful add keeps the ids in increasing list order. */
  lemma AddKeepsIdsIncreasing(tasks: seq<TaskRecord>, title: string, description: string,
                              dueDate: string, priority: string)
    ensures IdsIncreasing(tasks) ==> IdsIncreasing(AfterAdd(tasks, title, description, dueDate, priority))
  {
  }

  /** The store never holds a record that failed validation, and its ids
      stay positive and in increasing order. */
  lemma AddKeepsWellFormed(tasks: seq<TaskRecord>, title: string, description: string,
                           dueDate: string, priority: string)
    ensures WellFormed(tasks) ==> WellFormed(AfterAdd(tasks, title, description, dueDate, priority))
  {
  }

  // Sequences of add calls

  /** The arguments of one `add_task` call. */
  datatype AddRequest = AddRequest(title: string, description: string, dueDate: string, priority: string)

  predicate Accepts(q: AddRequest)
  {
    IsValidTitle(q.title) && IsValidPriority(q.priority) && IsValidDueDate(q.dueDate)
  }

  /** The list after calling `add_task` with each request in turn; a request
      that raises leaves the list as it was. Records are only ever appended:
      the old list stays in front, and the list grows by one per accepted
      request. */
  function ApplyAll(tasks: seq<TaskRecord>, reqs: seq<AddRequest>): (after: seq<TaskRecord>)
    ensures |after| == |tasks| + |Accepted(reqs)|
    ensures after[..|tasks|] == tasks
    decreases |reqs|
  {
    if reqs == [] then tasks
    else
      var q := reqs[0];
      ApplyAll(AfterAdd(tasks, q.title, q.description, q.dueDate, q.priority), reqs[1..])
  }

  /** The requests that pass validation, in call order: every passing
      request is kept, nothing else is, and `AcceptedConcat` gives the order. */
  function Accepted(reqs: seq<AddRequest>): (acc: seq<AddRequest>)
    ensures |acc| <= |reqs|
    ensures forall k :: 0 <= k < |acc| ==> Accepts(acc[k])
    ensures forall q :: q in acc ==> q in reqs
    ensures forall q :: q in reqs && Accepts(q) ==> q in acc
    ensures (forall k :: 0 <= k < |reqs| ==> Accepts(reqs[k])) ==> acc == reqs
    ensures |reqs| == 1 ==> acc == (if Accepts(reqs[0]) then reqs else [])
  {
    if reqs == [] then []
    else if Accepts(reqs[0]) then [reqs[0]] + Accepted(reqs[1..])
    else Accepted(reqs[1..])
  }

  /** Filtering a concatenation filters each part, in order. */
  lemma {:induction false} AcceptedConcat(a: seq<AddRequest>, b: seq<AddRequest>)
    ensures Accepted(a + b) == Accepted(a) + Accepted(b)
    decreases |a|
  {
    if a != [] {
      var head := if Accepts(a[0]) then [a[0]] else [];
      assert (a + b)[0] == a[0];
      assert (a + b)[1..] == a[1..] + b;
      assert Accepted(a + b) == head + Accepted(a[1..] + b);
      assert Accepted(a) == head + Accepted(a[1..]);
      AcceptedConcat(a[1..], b);
      SeqAssoc(head, Accepted(a[1..]), Accepted(b));
    } else {
      assert a + b == b;
    }
  }

  /** Records for `reqs`, numbered consecutively from `first`. */
  function Numbered(first: int, reqs: seq<AddRequest>): (ts: seq<TaskRecord>)
    ensures |ts| == |reqs|
    ensures forall k :: 0 <= k < |ts| ==>
              ts[k] == TaskRecord(first + k, reqs[k].title, reqs[k].description, reqs[k].dueDate, reqs[k].priority)
    decreases |reqs|
  {
    if reqs == [] then []
    else
      var q := reqs[0];
      var ts := [TaskRecord(first, q.title, q.description, q.dueDate, q.priority)] + Numbered(first + 1, reqs[1..]);
      assert forall k :: 1 <= k < |ts| ==> ts[k] == Numbered(first + 1, reqs[1..])[k - 1];
      ts
  }

  /** Ids `1, 2, ..., n` in list order. */
  predicate IdsCountFromOne(tasks: seq<TaskRecord>)
  {
    forall k :: 0 <= k < |tasks| ==> tasks[k].id == k + 1
  }

  /** One call of `add_task` with the arguments of `q`. */
  lemma AfterAddRequest(tasks: seq<TaskRecord>, q: AddRequest)
    ensures AfterAdd(tasks, q.title, q.description, q.dueDate, q.priority) ==
              if Accepts(q)
              then tasks + [TaskRecord(NextId(tasks), q.title, q.description, q.dueDate, q.priority)]
              else tasks
  {
  }

  lemma NextIdCountingFromOne(tasks: seq<TaskRecord>)
    requires IdsCountFromOne(tasks)
    ensures NextId(tasks) == |tasks| + 1
  {
    if tasks != [] {
      var i :| 0 <= i < |tasks| && tasks[i].id + 1 == NextId(tasks);
      assert tasks[|tasks| - 1].id < NextId(tasks);
    }
  }

  /** An accepted call on a list numbered `1..n` appends record `n + 1`. */
  lemma AcceptedCallNumbers(tasks: seq<TaskRecord>, q: AddRequest, rest: seq<AddRequest>)
    requires IdsCountFromOne(tasks) && Accepts(q)
    ensures var t := TaskRecord(|tasks| + 1, q.title, q.description, q.dueDate, q.priority);
            ApplyAll(tasks, [q] + rest) == ApplyAll(tasks + [t], rest)
            && IdsCountFromOne(tasks + [t])
  {
    AfterAddRequest(tasks, q);
    NextIdCountingFromOne(tasks);
    assert ([q] + rest)[1..] == rest;
    CountFromOneSnoc(tasks, TaskRecord(|tasks| + 1, q.title, q.description, q.dueDate, q.priority));
  }

  /** Appending record `n + 1` to a list numbered `1..n`. */
  lemma CountFromOneSnoc(tasks: seq<TaskRecord>, t: TaskRecord)
    requires IdsCountFromOne(tasks) && t.id == |tasks| + 1
    ensures IdsCountFromOne(tasks + [t])
  {
  }

  /** A refused call leaves the list as it was. */
  lemma RefusedCallKeeps(tasks: seq<TaskRecord>, q: AddRequest, rest: seq<AddRequest>)
    requires !Accepts(q)
    ensures ApplyAll(tasks, [q] + rest) == ApplyAll(tasks, rest)
    ensures Accepted([q] + rest) == Accepted(rest)
  {
  }

  /** An accepted request heads the accepted requests. */
  lemma AcceptedCons(q: AddRequest, rest: seq<AddRequest>)
    requires Accepts(q)
    ensures Accepted([q] + rest) == [q] + Accepted(rest)
  {
  }

  /** Associativity of concatenation, as a hint for `ApplyAllNumbers`. */
  lemma SeqAssoc<T>(a: seq<T>, b: seq<T>, c: seq<T>)
    ensures (a + b) + c == a + (b + c)
  {
  }

  /** Numbering a request list one request at a time. */
  lemma NumberedCons(first: int, q: AddRequest, reqs: seq<AddRequest>)
    ensures Numbered(first, [q] + reqs) ==
              [TaskRecord(first, q.title, q.description, q.dueDate, q.priority)] + Numbered(first + 1, reqs)
  {
  }

  /** On a list numbered `1..n`, the calls that succeed append their records
      numbered `n + 1, n + 2, ...` in call order, and the failed ones add
      nothing. */
  lemma {:induction false} ApplyAllNumbers(tasks: seq<TaskRecord>, reqs: seq<AddRequest>)
    requires IdsCountFromOne(tasks)
    ensures ApplyAll(tasks, reqs) == tasks + Numbered(|tasks| + 1, Accepted(reqs))
    decreases |reqs|
  {
    if reqs != [] {
      var q, rest := reqs[0], reqs[1..];
      assert reqs == [q] + rest;
      if Accepts(q) {
        var t := TaskRecord(|tasks| + 1, q.title, q.description, q.dueDate, q.priority);
        AcceptedCallNumbers(tasks, q, rest);
        ApplyAllNumbers(tasks + [t], rest);
        AcceptedCons(q, rest);
        NumberedCons(|tasks| + 1, q, Accepted(rest));
        var ns := Numbered(|tasks| + 2, Accepted(rest));
        calc {
          ApplyAll(tasks, reqs);
          ApplyAll(tasks + [t], rest);
          (tasks + [t]) + ns;
          { SeqAssoc(tasks, [t], ns); }
          tasks + ([t] + ns);
          tasks + Numbered(|tasks| + 1, [q] + Accepted(rest));
          tasks + Numbered(|tasks| + 1, Accepted(reqs));
        }
      } else {
        RefusedCallKeeps(tasks, q, rest);
        ApplyAllNumbers(tasks, rest);
      }
    }
  }

  /** Starting from an empty list, the `n` successful calls produce ids
      `1..n` in insertion order, each record holding its call's arguments. */
  lemma ApplyAllFromEmpty(reqs: seq<AddRequest>)
    ensures var tasks := ApplyAll([], reqs);
            var acc := Accepted(reqs);
            |tasks| == |acc| && forall k :: 0 <= k < |tasks| ==>
              tasks[k] == TaskRecord(k + 1, acc[k].title, acc[k].description, acc[k].dueDate, acc[k].priority)
  {
    ApplyAllNumbers([], reqs);
    var acc := Accepted(reqs);
    var tasks := Numbered(1, acc);
    assert [] + tasks == tasks;
  }

  /** The list built from an empty file by any sequence of calls is sorted
      by id and holds only validated records. */
  lemma ApplyAllFromEmptyIncreasing(reqs: seq<AddRequest>)
    ensures IdsIncreasing(ApplyAll([], reqs)) && WellFormed(ApplyAll([], reqs))
  {
    ApplyAllFromEmpty(reqs);
  }

  /** "Write report" added to an empty list becomes task 1. */
  lemma FirstAddFromEmpty()
    ensures AfterAdd([], "Write report", "Q3 summary", "2024-07-15", "High") ==
              [TaskRecord(1, "Write report", "Q3 summary", "2024-07-15", "High")]
  {
    Dates.AcceptsJulyFifteenth();
    AfterAddRequest([], AddRequest("Write report", "Q3 summary", "2024-07-15", "High"));
  }

  /** An empty title is reported even when the other two inputs are bad too. */
  lemma EmptyTitleWins(tasks: seq<TaskRecord>, description: string, dueDate: string, priority: string)
    ensures AddResult(tasks, "", description, dueDate, priority) == Err(InvalidTitle)
    ensures AfterAdd(tasks, "", description, dueDate, priority) == tasks
  {
  }

  /** Priorities are compared with their case: "low" is refused. */
  lemma LowerCasePriorityRejected(tasks: seq<TaskRecord>, dueDate: string)
    ensures AddResult(tasks, "Review", "", dueDate, "low") == Err(InvalidPriority)
  {
    assert "low" != "Low";
  }
}
