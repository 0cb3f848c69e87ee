/**
 * The widget's state and its event handlers: the task list and the active
 * filter, the value kept under the storage key "tasks", the rows currently
 * rendered, and the delete commits waiting on their timers.
 */
module TodoApp {
  import opened Wrappers
  import opened JsString
  import opened Tasks

  /** What `getTasksFromStorage` yields for the stored value: nothing stored reads as the empty list. */
  function Load(stored: Option<seq<Task>>): (r: seq<Task>)
    ensures stored.Some? ==> r == stored.value
    ensures stored.None? ==> r == []
  {
    match stored
    case None => []
    case Some(s) => s
  }

  class App {
    /** The in-memory task list, newest first. */
    var tasks: seq<Task>
    /** The active filter value, as set from a filter button's data attribute. */
    var currentFilter: string
    /** The value under the storage key "tasks"; None while nothing has been stored there. */
    var persisted: Option<seq<Task>>
    /** The tasks whose rows the list element currently shows, in order. */
    var view: seq<Task>
    /** The ids of the delete commits scheduled and not yet run, in the order their timers fire. */
    var scheduledDeletes: seq<int>

    /** Storage agrees with memory, and the rendered rows are the filtered list. */
    ghost predicate Valid()
      reads this
    {
      Load(persisted) == tasks && view == Filtered(tasks, currentFilter)
    }

    /** Page load: read the stored list, start with the filter "all" and render. */
    constructor (stored: Option<seq<Task>>)
      ensures Valid()
      ensures tasks == Load(stored) && persisted == stored
      ensures currentFilter == "all" && scheduledDeletes == []
    {
      tasks := Load(stored);
      persisted := stored;
      currentFilter := "all";
      scheduledDeletes := [];
      view := Filtered(Load(stored), "all");
    }

    /** saveTasksToStorage. */
    method Save()
      modifies this`persisted
      ensures persisted == Some(tasks)
    {
      persisted := Some(tasks);
    }

    /** The data side of renderTasks: the rows shown are the filtered list. */
    method Render()
      modifies this`view
      ensures view == Filtered(tasks, currentFilter)
    {
      view := Filtered(tasks, currentFilter);
    }

    /** addTask, with `now` standing for Date.now(); `accepted` is false when the validation cue is shown. */
    method Add(input: string, now: int) returns (accepted: bool)
      requires Valid()
      modifies this
      ensures Valid()
      ensures accepted <==> Trim(input) != []
      ensures accepted ==> tasks == [Task(now, Trim(input), false)] + old(tasks)
      ensures !accepted ==> unchanged(this)
      ensures currentFilter == old(currentFilter) && scheduledDeletes == old(scheduledDeletes)
    {
      var taskText := Trim(input);
      if taskText == [] {
        return false;
      }
      tasks := [Task(now, taskText, false)] + tasks;
      Save();
      Render();
      accepted := true;
    }

    /** toggleTaskCompletion: flip the first task with `id`; nothing at all happens when there is none. */
    method Toggle(id: int)
      requires Valid()
      modifies this
      ensures Valid()
      ensures tasks == Toggled(old(tasks), id)
      ensures FindFirst(old(tasks), id).None? ==> unchanged(this)
      ensures currentFilter == old(currentFilter) && scheduledDeletes == old(scheduledDeletes)
    {
      var found := FindFirst(tasks, id);
      if found.Some? {
        tasks := Toggled(tasks, id);
        Save();
        Render();
      }
    }

    /** saveEdit (blur or Enter): store the trimmed text if it is not empty; save and render either way. */
    method EditCommit(id: int, input: string)
      requires Valid()
      modifies this
      ensures Valid()
      ensures tasks == if Trim(input) == [] then old(tasks) else Retexted(old(tasks), id, Trim(input))
      ensures persisted == Some(tasks)
      ensures currentFilter == old(currentFilter) && scheduledDeletes == old(scheduledDeletes)
    {
      var newText := Trim(input);
      if newText != [] {
        tasks := Retexted(tasks, id, newText);
      }
      Save();
      Render();
    }

    /** The Escape key while editing: render again, store untouched. */
    method EditCancel()
      requires Valid()
      modifies this
      ensures Valid()
      ensures unchanged(this)
    {
      Render();
    }

    /** deleteTask: when the row for `id` is rendered, schedule its commit; the store is not touched. */
    method RequestDelete(id: int)
      requires Valid()
      modifies this
      ensures Valid()
      ensures tasks == old(tasks) && persisted == old(persisted)
      ensures view == old(view) && currentFilter == old(currentFilter)
      ensures scheduledDeletes == old(scheduledDeletes) +
                (if exists k :: 0 <= k < |tasks| && tasks[k].id == id && Passes(tasks[k], currentFilter)
                 then [id] else [])
    {
      HasRowIff(tasks, currentFilter, id);
      if HasRow(view, id) {
        scheduledDeletes := scheduledDeletes + [id];
      }
    }

    /** The body of the delete timer: drop every task with `id`, save and render. */
    method CommitDelete(id: int)
      requires Valid()
      modifies this
      ensures Valid()
      ensures tasks == Without(old(tasks), id)
      ensures persisted == Some(tasks)
      ensures currentFilter == old(currentFilter) && scheduledDeletes == old(scheduledDeletes)
    {
      tasks := Without(tasks, id);
      Save();
      Render();
    }

    /** The event loop runs the earliest scheduled delete commit. */
    method FireDeleteTimer()
      requires Valid() && scheduledDeletes != []
      modifies this
      ensures Valid()
      ensures tasks == Without(old(tasks), old(scheduledDeletes)[0])
      ensures persisted == Some(tasks)
      ensures scheduledDeletes == old(scheduledDeletes)[1..]
      ensures currentFilter == old(currentFilter)
    {
      var id := scheduledDeletes[0];
      scheduledDeletes := scheduledDeletes[1..];
      CommitDelete(id);
    }

    /** A click on a filter button: set the filter and render; the list and storage are untouched. */
    method SetFilter(filter: string)
      requires Valid()
      modifies this
      ensures Valid()
      ensures currentFilter == filter
      ensures tasks == old(tasks) && persisted == old(persisted) && scheduledDeletes == old(scheduledDeletes)
    {
      currentFilter := filter;
      Render();
    }
  }

  /**
   * Committing an edit whose field still holds the task's own text (the field is
   * pre-filled with it) leaves the list as it is, when that text is already trimmed,
   * as every text stored by an add or an edit is.
   */
  lemma UntouchedEditCommit(s: seq<Task>, id: int, k: nat)
    requires FindFirst(s, id) == Some(k) && Trimmed(s[k].text)
    ensures (if Trim(s[k].text) == [] then s else Retexted(s, id, Trim(s[k].text))) == s
  {
    TrimOfTrimmed(s[k].text);
    var r := Retexted(s, id, s[k].text);
    assert r[k] == s[k];
    assert r == s;
  }

  /** Starting empty, adding "Buy milk" gives a one-task list. */
  method AddToEmptyScenario(now: int)
  {
    var app := new App(None);
    TrimOfTrimmed("Buy milk");
    var accepted := app.Add("Buy milk", now);
    assert accepted;
    assert app.tasks == [Task(now, "Buy milk", false)];
  }

  /** Adding the empty string or only spaces is rejected and leaves the list as it was. */
  method BlankAddScenario(app: App, now: int)
    requires app.Valid()
    modifies app
  {
    var before := app.tasks;
    var accepted := app.Add("", now);
    assert !accepted && app.tasks == before;
    var blank := [' ', '\t', ' '];
    assert AllSpace(blank);
    accepted := app.Add(blank, now);
    assert !accepted && app.tasks == before;
  }

  /** With A pending and B completed, the "completed" view shows B alone. */
  method CompletedViewScenario(a: Task, b: Task)
    requires !a.completed && b.completed
  {
    var app := new App(Some([a, b]));
    app.SetFilter("completed");
    var p := Shows("completed");
    assert !p(a) && p(b);
    assert [a, b][1..] == [b] && [b][1..] == [];
    assert Keep([b], p) == [b];
    assert app.view == Keep([a, b], p) == [b];
  }

  /** Adding X, toggling it and deleting it leaves the list empty. */
  method AddToggleDeleteScenario(now: int)
  {
    var app := new App(None);
    var accepted := app.Add("X", now);
    assert app.tasks == [Task(now, Trim("X"), false)] + [];
    app.Toggle(now);
    app.CommitDelete(now);
    AddToggleDelete([], now, Trim("X"));
    assert app.tasks == [];
  }

  /** A delete request leaves the task in the store until its timer fires. */
  method DeleteTwoPhaseScenario(now: int)
  {
    var app := new App(None);
    TrimOfTrimmed("Z");
    var accepted := app.Add("Z", now);
    assert app.view == [Task(now, "Z", false)] by { FilteredOther(app.tasks, "all"); }
    app.RequestDelete(now);
    assert app.tasks == [Task(now, "Z", false)] && app.scheduledDeletes == [now];
    app.FireDeleteTimer();
    assert app.tasks == [];
  }
}
