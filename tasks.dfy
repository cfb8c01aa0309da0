/**
 * The in-memory task list of the open work order (assets/js/app.js): tasks are
 * appended when the form is submitted, removed by id on delete and on edit,
 * cleared on request, and their business days are totalled.
 */
module TaskList {
  import opened Wrappers
  import opened JsString
  import opened JsDate
  import opened BusinessDays

  /** One row of the table. `hours` is whatever number the hours field held. */
  datatype Task = Task(
    id: string,
    responsibleName: string,
    department: string,
    activity: string,
    description: string,
    startDate: string,
    endDate: string,
    businessDays: nat,
    hours: real,
    status: string)

  /** The raw values of the task form's fields. */
  datatype TaskForm = TaskForm(
    responsibleName: string,
    department: string,
    activity: string,
    description: string,
    startDate: string,
    endDate: string,
    hours: real,
    status: string)

  /** What a date field can hold: nothing, or a date input value. */
  predicate IsDateField(value: string) {
    value == "" || IsDateInput(value)
  }

  /** The submit handler's validation: responsible and activity (trimmed) and both dates are filled in. */
  function IsComplete(form: TaskForm): (r: bool)
    ensures r <==> HasText(form.responsibleName) && HasText(form.activity) && form.startDate != "" && form.endDate != ""
  {
    Trim(form.responsibleName) != "" && Trim(form.activity) != "" && form.startDate != "" && form.endDate != ""
  }

  /** `tasks.filter(t => String(t.id) !== String(id))`. */
  function WithoutId(tasks: seq<Task>, id: string): (r: seq<Task>)
    ensures |r| <= |tasks|
    ensures forall t :: t in r <==> t in tasks && t.id != id
  {
    if tasks == [] then []
    else if tasks[0].id != id then [tasks[0]] + WithoutId(tasks[1..], id)
    else WithoutId(tasks[1..], id)
  }

  /** Filtering works piecewise, so the tasks that stay keep their order. */
  lemma {:induction false} WithoutIdAppend(a: seq<Task>, b: seq<Task>, id: string)
    ensures WithoutId(a + b, id) == WithoutId(a, id) + WithoutId(b, id)
  {
    if a != [] {
      assert (a + b)[1..] == a[1..] + b;
      WithoutIdAppend(a[1..], b, id);
    } else {
      assert a + b == b;
    }
  }

  /** Removing an id that no task carries changes nothing. */
  lemma {:induction false} WithoutAbsentId(tasks: seq<Task>, id: string)
    requires forall t :: t in tasks ==> t.id != id
    ensures WithoutId(tasks, id) == tasks
  {
    if tasks != [] {
      WithoutAbsentId(tasks[1..], id);
      assert [tasks[0]] + tasks[1..] == tasks;
    }
  }

  /** Removing the same id twice is the same as removing it once. */
  lemma WithoutIdIdempotent(tasks: seq<Task>, id: string)
    ensures WithoutId(WithoutId(tasks, id), id) == WithoutId(tasks, id)
  {
    WithoutAbsentId(WithoutId(tasks, id), id);
  }

  /** `tasks[i]` is the first task whose id is `id`. */
  predicate FirstWithId(tasks: seq<Task>, i: int, id: string) {
    0 <= i < |tasks| && tasks[i].id == id && forall j :: 0 <= j < i ==> tasks[j].id != id
  }

  /** `tasks.find(t => String(t.id) === String(id))`: the first task with that id, if any. */
  function FindById(tasks: seq<Task>, id: string): (r: Option<Task>)
    ensures r.None? <==> forall t :: t in tasks ==> t.id != id
    ensures r.Some? ==> exists i :: FirstWithId(tasks, i, id) && tasks[i] == r.value
  {
    if tasks == [] then None
    else if tasks[0].id == id then Some(tasks[0])
    else
      var r := FindById(tasks[1..], id);
      if r.Some? then
        var i :| FirstWithId(tasks[1..], i, id) && tasks[1..][i] == r.value;
        assert FirstWithId(tasks, i + 1, id);
        r
      else
        r
  }

  /** `tasks.reduce((acc, t) => acc + (Number(t.businessDays) || 0), 0)`. */
  function TotalBusinessDays(tasks: seq<Task>): (r: nat)
    ensures forall i :: 0 <= i < |tasks| ==> tasks[i].businessDays <= r
    ensures r == 0 <==> forall i :: 0 <= i < |tasks| ==> tasks[i].businessDays == 0
  {
    if tasks == [] then 0 else TotalBusinessDays(tasks[..|tasks| - 1]) + tasks[|tasks| - 1].businessDays
  }

  /** The total of two lists put together is the sum of their totals. */
  lemma {:induction false} TotalAppend(a: seq<Task>, b: seq<Task>)
    ensures TotalBusinessDays(a + b) == TotalBusinessDays(a) + TotalBusinessDays(b)
    decreases |b|
  {
    if b == [] {
      assert a + b == a;
    } else {
      var init := b[..|b| - 1];
      assert (a + b)[..|a + b| - 1] == a + init;
      TotalAppend(a, init);
    }
  }

  /** The tasks with a given id. */
  function WithId(tasks: seq<Task>, id: string): seq<Task> {
    if tasks == [] then []
    else if tasks[0].id == id then [tasks[0]] + WithId(tasks[1..], id)
    else WithId(tasks[1..], id)
  }

  /** Deleting by id lowers the total by exactly the days of the deleted tasks. */
  lemma {:induction false} TotalWithoutId(tasks: seq<Task>, id: string)
    ensures TotalBusinessDays(WithoutId(tasks, id)) + TotalBusinessDays(WithId(tasks, id)) == TotalBusinessDays(tasks)
  {
    if tasks != [] {
      TotalWithoutId(tasks[1..], id);
      TotalAppend([tasks[0]], tasks[1..]);
      assert [tasks[0]] + tasks[1..] == tasks;
      assert TotalBusinessDays([tasks[0]]) == tasks[0].businessDays by {
        assert [tasks[0]][..0] == [];
      }
      if tasks[0].id != id {
        TotalAppend([tasks[0]], WithoutId(tasks[1..], id));
      } else {
        TotalAppend([tasks[0]], WithId(tasks[1..], id));
      }
    }
  }

  /** The task the submit handler builds from the form, its new id and its business-day count. */
  function NewTask(form: TaskForm, id: string, businessDays: nat): (r: Task)
    ensures IsTrimmed(r.responsibleName) && IsTrimmed(r.department) && IsTrimmed(r.activity) && IsTrimmed(r.description)
    ensures exists i :: TrimmedAt(form.responsibleName, i, r.responsibleName)
    ensures exists i :: TrimmedAt(form.department, i, r.department)
    ensures exists i :: TrimmedAt(form.activity, i, r.activity)
    ensures exists i :: TrimmedAt(form.description, i, r.description)
    ensures r.id == id && r.businessDays == businessDays
    ensures r.startDate == form.startDate && r.endDate == form.endDate
    ensures r.hours == form.hours && r.status == form.status
    ensures IsComplete(form) ==> r.responsibleName != [] && r.activity != []
  {
    Task(id, Trim(form.responsibleName), Trim(form.department), Trim(form.activity), Trim(form.description),
      form.startDate, form.endDate, businessDays, form.hours, form.status)
  }

  /** `state`: the tasks of the order being edited. */
  class AppState {
    var tasks: seq<Task>

    constructor ()
      ensures tasks == []
    {
      tasks := [];
    }

    /**
     * The task form's submit handler: an incomplete form changes nothing; otherwise the
     * business days between the two dates are counted and the new task is appended.
     */
    method SubmitTask(form: TaskForm, id: string, isHoliday: Option<Date -> bool>) returns (added: bool)
      requires IsDateField(form.startDate) && IsDateField(form.endDate)
      modifies this
      ensures added <==> IsComplete(form)
      ensures !added ==> tasks == old(tasks)
      ensures added ==> tasks == old(tasks) + [NewTask(form, id,
        BusinessDaysBetween(ToDate(form.startDate), ToDate(form.endDate), isHoliday))]
    {
      var responsibleName := Trim(form.responsibleName);
      var activity := Trim(form.activity);
      if responsibleName == "" || activity == "" || form.startDate == "" || form.endDate == "" {
        return false;
      }
      var businessDays := CountBusinessDays(ToDate(form.startDate), ToDate(form.endDate), isHoliday);
      tasks := tasks + [NewTask(form, id, businessDays)];
      added := true;
    }

    /** The table's delete action: an empty id does nothing, otherwise every task with that id goes. */
    method DeleteTask(id: string)
      modifies this
      ensures tasks == if id == "" then old(tasks) else WithoutId(old(tasks), id)
    {
      if id == "" {
        return;
      }
      tasks := WithoutId(tasks, id);
    }

    /**
     * The table's edit action: the first task with the id is handed back to refill the form
     * and every task with that id is removed; nothing happens when no task has it.
     */
    method EditTask(id: string) returns (task: Option<Task>)
      modifies this
      ensures task == (if id == "" then None else FindById(old(tasks), id))
      ensures tasks == if task.None? then old(tasks) else WithoutId(old(tasks), id)
    {
      if id == "" {
        return None;
      }
      task := FindById(tasks, id);
      if task.None? {
        return;
      }
      tasks := WithoutId(tasks, id);
    }

    /** The clear button: nothing happens for an empty list or when the user does not confirm. */
    method ClearTasks(confirmed: bool)
      modifies this
      ensures tasks == if old(tasks) != [] && confirmed then [] else old(tasks)
    {
      if |tasks| == 0 {
        return;
      }
      if !confirmed {
        return;
      }
      tasks := [];
    }

    /**
     * The "new order" button: with an order id filled in and tasks present, only a confirmed
     * request goes ahead; going ahead empties the list (and the order id and company fields).
     */
    method StartNewOrder(hasOrderId: bool, confirmed: bool)
      modifies this
      ensures tasks == if hasOrderId && old(tasks) != [] && !confirmed then old(tasks) else []
    {
      if hasOrderId && |tasks| > 0 {
        if !confirmed {
          return;
        }
      }
      tasks := [];
    }
  }
}
