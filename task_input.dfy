/**
 * The task form: six input fields that are loaded from the task being edited (or reset when there
 * is none), and a submit that builds a task from them, hands it to the save-edit or the add
 * callback, and clears the fields.
 */
module TaskInput {
  import opened Wrappers
  import Tasks

  /** The category choices; the first one is the default. */
  const Categories: seq<string> := ["Work", "Personal", "Shopping", "Other"]

  /** The values of the six fields of the form. */
  datatype Fields = Fields(
    text: string,
    dueDate: string,
    category: string,
    recurrence: string,
    notes: string,
    priority: string)

  /** The fields of an empty form. */
  function Blank(): (r: Fields)
    ensures r.text == "" && r.dueDate == "" && r.notes == ""
    ensures r.category == Categories[0] && r.recurrence == "none" && r.priority == "medium"
  {
    Fields("", "", Categories[0], "none", "", "medium")
  }

  /** The fields the form shows for the task being edited, or the blank form when there is none. */
  function Loaded(editTask: Option<Tasks.Task>): (r: Fields)
    ensures editTask == None ==> r == Blank()
    ensures editTask.Some? ==> r.text == editTask.value.description
  {
    match editTask
    case None => Blank()
    case Some(t) =>
      Fields(
        t.description,
        Tasks.OrElse(t.dueDate, ""),
        Tasks.OrElse(t.category, Categories[0]),
        Tasks.OrElse(t.recurrence, "none"),
        Tasks.OrElse(t.notes, ""),
        Tasks.OrElse(t.priority, "medium"))
  }

  /**
   * The task the submit builds. An edited task keeps its id, its `completed` and its creation
   * time; a new task takes the fresh id and the current time given by the caller and starts
   * not completed. The form writes `description` and never `text`.
   */
  function BuildTask(f: Fields, editTask: Option<Tasks.Task>, freshId: string, now: string): (r: Tasks.Task)
    ensures r.description == f.text && r.text == None
    ensures r.dueDate == Some(f.dueDate) && r.category == Some(f.category) && r.recurrence == Some(f.recurrence)
    ensures r.notes == Some(f.notes) && r.priority == Some(f.priority)
    ensures editTask.Some? ==>
      (r.id == editTask.value.id && r.completed == editTask.value.completed && r.createdAt == editTask.value.createdAt)
    ensures editTask == None ==> r.id == freshId && r.completed == Some(false) && r.createdAt == Some(now)
  {
    Tasks.Task(
      if editTask.Some? then editTask.value.id else freshId,
      f.text,
      Some(f.dueDate),
      Some(f.category),
      Some(f.recurrence),
      Some(f.notes),
      Some(f.priority),
      if editTask.Some? then editTask.value.completed else Some(false),
      if editTask.Some? then editTask.value.createdAt else Some(now),
      None)
  }

  /** Which callback receives the built task. */
  datatype Submission = SaveEdit(task: Tasks.Task) | AddTask(task: Tasks.Task)

  /** `editTask && onSaveEdit ? onSaveEdit(task) : onAddTask(task)`. */
  function Submit(f: Fields, editTask: Option<Tasks.Task>, hasOnSaveEdit: bool, freshId: string, now: string): (r: Submission)
    ensures r.task == BuildTask(f, editTask, freshId, now)
    ensures r.SaveEdit? <==> editTask.Some? && hasOnSaveEdit
  {
    var task := BuildTask(f, editTask, freshId, now);
    if editTask.Some? && hasOnSaveEdit then SaveEdit(task) else AddTask(task)
  }

  /** The form component with its six pieces of state. */
  class TaskForm {
    var text: string
    var dueDate: string
    var category: string
    var recurrence: string
    var notes: string
    var priority: string

    /** The current values of the fields. */
    function Current(): Fields
      reads this
    {
      Fields(text, dueDate, category, recurrence, notes, priority)
    }

    /** The form starts blank. */
    constructor ()
      ensures Current() == Blank()
    {
      text, dueDate, category := "", "", Categories[0];
      recurrence, notes, priority := "none", "", "medium";
    }

    /** The effect run whenever `editTask` changes: load the edited task, or reset. */
    method LoadEditTask(editTask: Option<Tasks.Task>)
      modifies this
      ensures Current() == Loaded(editTask)
    {
      if editTask.Some? {
        var t := editTask.value;
        text := t.description;
        dueDate := Tasks.OrElse(t.dueDate, "");
        category := Tasks.OrElse(t.category, Categories[0]);
        recurrence := Tasks.OrElse(t.recurrence, "none");
        notes := Tasks.OrElse(t.notes, "");
        priority := Tasks.OrElse(t.priority, "medium");
      } else {
        text := "";
        dueDate := "";
        category := Categories[0];
        recurrence := "none";
        notes := "";
        priority := "medium";
      }
    }

    /** `handleAddOrEdit`: build the task from the fields, route it, and clear the form. */
    method HandleAddOrEdit(editTask: Option<Tasks.Task>, hasOnSaveEdit: bool, freshId: string, now: string)
      returns (s: Submission)
      modifies this
      ensures s == Submit(old(Current()), editTask, hasOnSaveEdit, freshId, now)
      ensures Current() == Blank()
    {
      var task := BuildTask(Current(), editTask, freshId, now);
      if editTask.Some? && hasOnSaveEdit {
        s := SaveEdit(task);
      } else {
        s := AddTask(task);
      }
      text := "";
      dueDate := "";
      category := Categories[0];
      recurrence := "none";
      notes := "";
      priority := "medium";
    }
  }

  // ---- Properties ----

  /**
   * Loading a task into the form and submitting it unchanged gives back the task with its
   * missing or empty properties filled with the form's defaults, and without `text`.
   */
  lemma LoadThenBuild(t: Tasks.Task, freshId: string, now: string)
    ensures var r := BuildTask(Loaded(Some(t)), Some(t), freshId, now);
      && r.id == t.id && r.description == t.description
      && r.completed == t.completed && r.createdAt == t.createdAt && r.text == None
      && r.dueDate == Some(Tasks.OrElse(t.dueDate, ""))
      && r.category == Some(Tasks.OrElse(t.category, "Work"))
      && r.recurrence == Some(Tasks.OrElse(t.recurrence, "none"))
      && r.notes == Some(Tasks.OrElse(t.notes, ""))
      && r.priority == Some(Tasks.OrElse(t.priority, "medium"))
  {
  }

  /** A task the form itself built, with no empty field, comes back unchanged from a load and submit. */
  lemma FormTaskRoundTrip(f: Fields, editTask: Option<Tasks.Task>, freshId: string, now: string, id2: string, now2: string)
    requires f.dueDate != "" && f.category != "" && f.recurrence != "" && f.notes != "" && f.priority != ""
    ensures var t := BuildTask(f, editTask, freshId, now);
      Loaded(Some(t)) == f && BuildTask(Loaded(Some(t)), Some(t), id2, now2) == t
  {
  }

  /** A saved edit replaces exactly the tasks carrying the edited id and keeps their completion state. */
  lemma SaveEditKeepsOthers(p: Tasks.Page, f: Fields, t: Tasks.Task, freshId: string, now: string)
    ensures var q := Tasks.SaveEdit(p, BuildTask(f, Some(t), freshId, now));
      && |q.tasks| == |p.tasks| && q.editingTask == None
      && forall i :: 0 <= i < |p.tasks| ==>
        (p.tasks[i].id != t.id ==> q.tasks[i] == p.tasks[i])
        && (p.tasks[i].id == t.id ==> q.tasks[i].completed == t.completed && q.tasks[i].description == f.text)
  {
  }

  /** A new task from the form starts with a boolean `completed`, so toggling it twice restores the list. */
  lemma NewTaskTogglesBack(tasks: seq<Tasks.Task>, f: Fields, freshId: string, now: string)
    requires forall i :: 0 <= i < |tasks| && tasks[i].id == freshId ==> tasks[i].completed.Some?
    ensures var ts := Tasks.AddTask(tasks, BuildTask(f, None, freshId, now));
      Tasks.ToggleTask(Tasks.ToggleTask(ts, freshId), freshId) == ts
  {
    var ts := Tasks.AddTask(tasks, BuildTask(f, None, freshId, now));
    forall i | 0 <= i < |ts| && ts[i].id == freshId ensures ts[i].completed.Some? {
      if i < |tasks| {
        assert ts[i] == tasks[i];
      }
    }
    Tasks.ToggleTwiceRestores(ts, freshId);
  }

  /**
   * Once the form has added a task, the list's search as written throws on every render, since
   * the task has no `text`.
   */
  lemma FormTaskBreaksSearch(tasks: seq<Tasks.Task>, f: Fields, freshId: string, now: string, search: string, category: string)
    ensures Tasks.FilteredAsWritten(Tasks.AddTask(tasks, BuildTask(f, None, freshId, now)), search, category) == None
  {
    var ts := Tasks.AddTask(tasks, BuildTask(f, None, freshId, now));
    Tasks.MissingTextThrows(ts, search, category, |tasks|);
  }
}
