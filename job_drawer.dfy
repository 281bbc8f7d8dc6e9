/**
 * The job drawer of src/components/job-drawer.tsx: the form's required fields, what the
 * form and the draft lists are reset to when the drawer opens, the todo list edits, the
 * payloads `onSubmit` dispatches, and the delete button that revokes the draft's file
 * handles before deleting the job. The form library is reduced to the values it holds;
 * new ids and the creation stamp are supplied by the caller.
 */
module JobDrawer {
  import opened Wrappers
  import opened Seqs
  import opened Text
  import opened Types
  import R = JobsReducer
  import S = JobsSlice
  import ObjectUrls

  datatype Mode = Add | Edit | View

  /** The seven form fields; every one is a string, the optional ones default to "". */
  datatype FormValues = FormValues(
    company: string,
    position: string,
    location: string,
    salary: string,
    link: string,
    columnId: string,
    notes: string)

  /** The component's own state besides the form: the draft todo and file lists and the todo input. */
  datatype Draft = Draft(values: FormValues, todos: seq<TodoItem>, files: seq<JobFile>, newTodo: string)

  // ----- validation -----

  /**
   * The schema's verdict: `company`, `position` and `columnId` need at least one
   * character; the other fields accept anything. Nothing is trimmed first.
   */
  function Accepts(v: FormValues): (ok: bool)
    ensures ok <==> v.company != [] && v.position != [] && v.columnId != []
  {
    |v.company| >= 1 && |v.position| >= 1 && |v.columnId| >= 1
  }

  /** The optional fields never block a submission. */
  lemma OptionalFieldsIgnored(v: FormValues, location: string, salary: string, link: string, notes: string)
    ensures Accepts(v) == Accepts(v.(location := location, salary := salary, link := link, notes := notes))
  {
  }

  // ----- opening the drawer -----

  /**
   * The add-mode default column: the selected column when it is set and non-empty,
   * otherwise the first column's id, otherwise "" (JavaScript's `||` skips both null
   * and the empty string).
   */
  function DefaultColumnId(selected: Option<string>, columns: seq<Column>): (id: string)
    ensures selected.Some? && selected.value != "" ==> id == selected.value
    ensures (selected.None? || selected.value == "") && |columns| > 0 ==> id == columns[0].id
    ensures (selected.None? || selected.value == "") && |columns| == 0 ==> id == ""
  {
    if selected.Some? && selected.value != "" then selected.value
    else if |columns| > 0 && columns[0].id != "" then columns[0].id
    else ""
  }

  /**
   * The default names an existing column whenever there is a column and the selection,
   * if set, names one; a selection left over from a deleted column is used as it is.
   */
  lemma DefaultColumnExists(selected: Option<string>, columns: seq<Column>)
    requires |columns| > 0
    requires selected.Some? && selected.value != "" ==> R.HasColumn(columns, selected.value)
    ensures R.HasColumn(columns, DefaultColumnId(selected, columns))
  {
    if !(selected.Some? && selected.value != "") {
      assert columns[0] in columns;
    }
  }

  /** The form as the edit and view modes fill it from a stored job. */
  function ValuesOf(job: Job): (v: FormValues)
    ensures v.company == job.company && v.position == job.position && v.columnId == job.columnId
    ensures v.location == job.location.GetOr("") && v.salary == job.salary.GetOr("")
    ensures v.link == job.link.GetOr("") && v.notes == job.notes.GetOr("")
  {
    FormValues(job.company, job.position, job.location.GetOr(""), job.salary.GetOr(""),
               job.link.GetOr(""), job.columnId, job.notes.GetOr(""))
  }

  /**
   * The opening effect. Closed: nothing changes. Edit or view of a job: the form, todos
   * and files come from the job. Add: a blank form on the default column and empty
   * lists. Edit or view without a job: only the todo input is cleared.
   */
  function OnOpen(d: Draft, open: bool, job: Option<Job>, mode: Mode,
                  selected: Option<string>, columns: seq<Column>): (r: Draft)
    ensures !open ==> r == d
    ensures open ==> r.newTodo == ""
    ensures open && job.Some? && (mode == Edit || mode == View) ==>
      r.values == ValuesOf(job.value) && r.todos == job.value.todos.GetOr([]) && r.files == job.value.files.GetOr([])
    ensures open && mode == Add ==>
      && r.values == FormValues("", "", "", "", "", DefaultColumnId(selected, columns), "")
      && r.todos == [] && r.files == []
    ensures open && job.None? && (mode == Edit || mode == View) ==> r == d.(newTodo := "")
  {
    if !open then d
    else if job.Some? && (mode == Edit || mode == View) then
      Draft(ValuesOf(job.value), job.value.todos.GetOr([]), job.value.files.GetOr([]), "")
    else if mode == Add then
      Draft(FormValues("", "", "", "", "", DefaultColumnId(selected, columns), ""), [], [], "")
    else d.(newTodo := "")
  }

  // ----- the todo list -----

  function TodoNotNamed(id: string): TodoItem -> bool { (t: TodoItem) => t.id != id }

  /**
   * `addTodo`: an input that trims to nothing changes nothing; otherwise one unchecked
   * item with the trimmed text is appended and the input is cleared.
   */
  function AddTodo(d: Draft, id: string): (r: Draft)
    ensures AllSpace(d.newTodo) ==> r == d
    ensures !AllSpace(d.newTodo) ==>
      && r == d.(todos := d.todos + [TodoItem(id, Trim(d.newTodo), false)], newTodo := "")
      && Trim(d.newTodo) != [] && Trimmed(Trim(d.newTodo))
  {
    TrimEmptyIff(d.newTodo);
    var text := Trim(d.newTodo);
    if text != "" then
      d.(todos := d.todos + [TodoItem(id, text, false)], newTodo := "")
    else d
  }

  /** `toggleTodo`: flips `completed` on the items with the id; ids, texts and order stay. */
  function ToggleTodo(todos: seq<TodoItem>, id: string): (r: seq<TodoItem>)
    ensures |r| == |todos|
    ensures forall k :: 0 <= k < |todos| ==>
      && r[k].id == todos[k].id && r[k].text == todos[k].text
      && r[k].completed == (if todos[k].id == id then !todos[k].completed else todos[k].completed)
  {
    seq(|todos|, k requires 0 <= k < |todos| =>
      if todos[k].id == id then todos[k].(completed := !todos[k].completed) else todos[k])
  }

  /** Toggling the same id twice gives back the list. */
  lemma ToggleTwice(todos: seq<TodoItem>, id: string)
    ensures ToggleTodo(ToggleTodo(todos, id), id) == todos
  {
    var once := ToggleTodo(todos, id);
    var twice := ToggleTodo(once, id);
    forall k | 0 <= k < |todos| ensures twice[k] == todos[k] {
      assert twice[k].id == todos[k].id && twice[k].text == todos[k].text;
      assert twice[k].completed == todos[k].completed;
    }
  }

  /** `deleteTodo`: exactly the items with the id go; the rest keep their order. */
  function DeleteTodo(todos: seq<TodoItem>, id: string): (r: seq<TodoItem>)
    ensures forall t :: t in r <==> t in todos && t.id != id
  {
    Filter(todos, TodoNotNamed(id))
  }

  /** Deleting from a list split in two deletes from each part: the survivors keep their order. */
  lemma DeleteTodoKeepsOrder(front: seq<TodoItem>, back: seq<TodoItem>, id: string)
    ensures DeleteTodo(front + back, id) == DeleteTodo(front, id) + DeleteTodo(back, id)
  {
    FilterAppend(front, back, TodoNotNamed(id));
  }

  // ----- submitting -----

  /** The `addJob` payload: a new id and stamp, every form value, the draft lists. */
  function AddPayload(id: string, v: FormValues, createdAt: string,
                      todos: seq<TodoItem>, files: seq<JobFile>): (job: Job)
    ensures job.id == id && job.createdAt == createdAt
    ensures ValuesOf(job) == v
    ensures job.todos == Some(todos) && job.files == Some(files)
  {
    Job(id, v.columnId, v.company, v.position, Some(v.location), Some(v.salary), Some(v.link),
        createdAt, Some(v.notes), Some(todos), Some(files))
  }

  /**
   * The `updateJob` payload: the stored job with every form value laid over it and the
   * draft lists; its id and creation stamp are kept.
   */
  function EditPayload(job: Job, v: FormValues, todos: seq<TodoItem>, files: seq<JobFile>): (r: Job)
    ensures r.id == job.id && r.createdAt == job.createdAt
    ensures ValuesOf(r) == v
    ensures r.todos == Some(todos) && r.files == Some(files)
  {
    job.(company := v.company, position := v.position, location := Some(v.location),
         salary := Some(v.salary), link := Some(v.link), columnId := v.columnId,
         notes := Some(v.notes), todos := Some(todos), files := Some(files))
  }

  /**
   * Opening a job for editing and saving it untouched gives back the job, as long as
   * all its optional fields were set.
   */
  lemma EditUntouchedKeepsJob(job: Job)
    requires job.location.Some? && job.salary.Some? && job.link.Some? && job.notes.Some?
    requires job.todos.Some? && job.files.Some?
    ensures EditPayload(job, ValuesOf(job), job.todos.value, job.files.value) == job
  {
  }

  /** An unset optional field comes back from an untouched edit as the empty string. */
  lemma EditUntouchedFillsLocation(job: Job)
    requires job.location.None?
    ensures EditPayload(job, ValuesOf(job), job.todos.GetOr([]), job.files.GetOr([])).location == Some("")
  {
  }

  /**
   * Adding a job with a fresh id on an existing column, and editing a job onto an existing
   * column, keep the store's invariant.
   */
  lemma SubmitKeepsInvariant(s: R.JobsState, mode: Mode, job: Option<Job>, newId: string,
                             createdAt: string, d: Draft)
    requires R.Invariant(s) && R.HasColumn(s.columns, d.values.columnId)
    requires mode == Add ==> !R.HasJob(s.jobs, newId)
    ensures mode == Add ==>
      R.Invariant(R.AddJob(s, AddPayload(newId, d.values, createdAt, d.todos, d.files)))
    ensures mode == Edit && job.Some? ==>
      R.Invariant(R.UpdateJob(s, EditPayload(job.value, d.values, d.todos, d.files)))
  {
    if mode == Add {
      R.AddJobKeepsInvariant(s, AddPayload(newId, d.values, createdAt, d.todos, d.files));
    }
    if mode == Edit && job.Some? {
      R.UpdateJobKeepsInvariant(s, EditPayload(job.value, d.values, d.todos, d.files));
    }
  }

  /**
   * A submission: when the form is not accepted nothing happens. Otherwise add mode
   * dispatches one `addJob`, edit mode with a job one `updateJob`, and the drawer closes
   * (view mode closes without dispatching).
   */
  method Submit(mode: Mode, job: Option<Job>, d: Draft, newId: string, createdAt: string,
                store: S.JobsStore) returns (closed: bool)
    modifies store
    ensures !Accepts(d.values) ==> !closed && store.State() == old(store.State())
    ensures Accepts(d.values) ==> closed
    ensures Accepts(d.values) && mode == Add ==>
      store.State() == R.AddJob(old(store.State()), AddPayload(newId, d.values, createdAt, d.todos, d.files))
    ensures Accepts(d.values) && mode == Edit && job.Some? ==>
      store.State() == R.UpdateJob(old(store.State()), EditPayload(job.value, d.values, d.todos, d.files))
    ensures Accepts(d.values) && (mode == View || job.None?) && mode != Add ==>
      store.State() == old(store.State())
  {
    if !Accepts(d.values) {
      return false;
    }
    if mode == Add {
      store.AddJob(AddPayload(newId, d.values, createdAt, d.todos, d.files));
    } else if mode == Edit && job.Some? {
      store.UpdateJob(EditPayload(job.value, d.values, d.todos, d.files));
    }
    closed := true;
  }

  // ----- deleting -----

  /** The handles among the draft's files that the drawer revokes: those starting with "blob:". */
  ghost function BlobUrlsOf(files: seq<JobFile>): set<string> {
    set f | f in files && StartsWith(f.url, "blob:") :: f.url
  }

  /**
   * The drawer's delete: with a job, revoke every draft file handle that starts with
   * "blob:", then dispatch `deleteJob` for the job's id and close. Without a job,
   * nothing happens.
   */
  method HandleDeleteJob(job: Option<Job>, files: seq<JobFile>, store: S.JobsStore,
                         urls: ObjectUrls.UrlRegistry) returns (closed: bool)
    requires urls.Valid()
    modifies store, urls
    ensures urls.Valid() && urls.minted == old(urls.minted)
    ensures job.None? ==> !closed && store.State() == old(store.State()) && urls.live == old(urls.live)
    ensures job.Some? ==>
      && closed
      && urls.live == old(urls.live) - BlobUrlsOf(files)
      && store.State() == R.DeleteJob(old(store.State()), job.value.id)
  {
    if job.None? {
      return false;
    }
    for i := 0 to |files|
      invariant urls.Valid() && urls.minted == old(urls.minted)
      invariant urls.live == old(urls.live) - BlobUrlsOf(files[..i])
      invariant store.State() == old(store.State())
    {
      assert files[..i + 1] == files[..i] + [files[i]];
      if StartsWith(files[i].url, "blob:") {
        urls.Revoke(files[i].url);
        assert BlobUrlsOf(files[..i + 1]) == BlobUrlsOf(files[..i]) + {files[i].url};
      } else {
        assert BlobUrlsOf(files[..i + 1]) == BlobUrlsOf(files[..i]);
      }
    }
    assert files[..|files|] == files;
    store.DeleteJob(job.value.id);
    closed := true;
  }
}
