/** The four entities of the board (src/types/index.d.ts). Ids and timestamps are opaque strings. */
module Types {
  import opened Wrappers

  /** A board column. `count` caches how many jobs name this column; the source keeps it by hand. */
  datatype Column = Column(id: string, title: string, count: int)

  /** One entry of a job's checklist. */
  datatype TodoItem = TodoItem(id: string, text: string, completed: bool)

  /** An attached file. `url` is the handle through which the browser serves its bytes. */
  datatype JobFile = JobFile(id: string, name: string, size: nat, fileType: string, url: string, uploadedAt: string)

  /** A tracked application; the fields marked optional in the source are `Option`s. */
  datatype Job = Job(
    id: string,
    columnId: string,
    company: string,
    position: string,
    location: Option<string>,
    salary: Option<string>,
    link: Option<string>,
    createdAt: string,
    notes: Option<string>,
    todos: Option<seq<TodoItem>>,
    files: Option<seq<JobFile>>)

  function ColumnId(c: Column): string { c.id }
  function JobId(j: Job): string { j.id }
}
