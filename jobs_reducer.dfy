/**
 * The board's state and its reducers (src/redux/features/jobs/jobsSlice.ts), as pure
 * transition functions on a `JobsState` value, together with the invariants the board
 * relies on and the conditions under which each reducer preserves them.
 *
 * The reducers are deliberately lenient and the model keeps that: a lookup that finds
 * nothing is a no-op, `find` picks the FIRST column or job with a given id, `addJob`
 * appends even when no column matches, and `deleteJob` drops every job with the id.
 */
module JobsReducer {
  import opened Wrappers
  import opened Seqs
  import opened Types

  /** `JobsState`: the two collections, the two dialog flags and the selected column. */
  datatype JobsState = JobsState(
    columns: seq<Column>,
    jobs: seq<Job>,
    showAddJobDialog: bool,
    showAddColumnDialog: bool,
    selectedColumn: Option<string>)

  /** `initialState`. */
  const InitialState: JobsState := JobsState([], [], false, false, None)

  // ----- the callbacks passed to find / filter -----

  function ColumnNamed(id: string): Column -> bool { (c: Column) => c.id == id }
  function ColumnNotNamed(id: string): Column -> bool { (c: Column) => c.id != id }
  function JobNamed(id: string): Job -> bool { (j: Job) => j.id == id }
  function JobNotNamed(id: string): Job -> bool { (j: Job) => j.id != id }
  function InColumn(id: string): Job -> bool { (j: Job) => j.columnId == id }
  function NotInColumn(id: string): Job -> bool { (j: Job) => j.columnId != id }

  /** `columns.find(col => col.id === id)`, as the position of the column found. */
  function ColumnIndex(cols: seq<Column>, id: string): Option<nat> {
    FirstIndex(cols, ColumnNamed(id))
  }

  /** `jobs.find(job => job.id === id)` / `findIndex`, as a position. */
  function JobIndex(jobs: seq<Job>, id: string): Option<nat> {
    FirstIndex(jobs, JobNamed(id))
  }

  /** The jobs whose `columnId` names column `id`, in store order. */
  function ColumnJobs(jobs: seq<Job>, id: string): seq<Job> {
    Filter(jobs, InColumn(id))
  }

  /** How many jobs name column `id`: what that column's cached `count` should be. */
  function CountIn(jobs: seq<Job>, id: string): nat {
    |ColumnJobs(jobs, id)|
  }

  predicate HasColumn(cols: seq<Column>, id: string) {
    exists c :: c in cols && c.id == id
  }

  predicate HasJob(jobs: seq<Job>, id: string) {
    exists j :: j in jobs && j.id == id
  }

  /**
   * `const column = columns.find(...); if (column) column.count += delta`:
   * only the first column named `id` changes, and only its count.
   */
  function AdjustCount(cols: seq<Column>, id: string, delta: int): (r: seq<Column>)
    ensures |r| == |cols|
    ensures forall k :: 0 <= k < |cols| ==>
      r[k] == if ColumnIndex(cols, id) == Some(k) then cols[k].(count := cols[k].count + delta) else cols[k]
  {
    match ColumnIndex(cols, id)
    case None => cols
    case Some(i) => cols[i := cols[i].(count := cols[i].count + delta)]
  }

  // ----- invariants -----

  predicate UniqueColumnIds(cols: seq<Column>) { DistinctKeys(cols, ColumnId) }
  predicate UniqueJobIds(jobs: seq<Job>) { DistinctKeys(jobs, JobId) }

  /** Every column's cached count equals the number of jobs that name it. */
  predicate CountsConsistent(cols: seq<Column>, jobs: seq<Job>) {
    forall c :: c in cols ==> c.count == CountIn(jobs, c.id)
  }

  /** Every job names an existing column. */
  predicate NoOrphans(cols: seq<Column>, jobs: seq<Job>) {
    forall j :: j in jobs ==> HasColumn(cols, j.columnId)
  }

  predicate Invariant(s: JobsState) {
    && UniqueColumnIds(s.columns)
    && UniqueJobIds(s.jobs)
    && CountsConsistent(s.columns, s.jobs)
    && NoOrphans(s.columns, s.jobs)
  }

  /** The dialog flags and the selected column are the same in both states. */
  predicate SameUi(r: JobsState, s: JobsState) {
    r.showAddJobDialog == s.showAddJobDialog
    && r.showAddColumnDialog == s.showAddColumnDialog
    && r.selectedColumn == s.selectedColumn
  }

  // ----- the reducers -----

  /** `setColumns`: replaces the column list, assuming nothing. */
  function SetColumns(s: JobsState, payload: seq<Column>): (r: JobsState)
    ensures r.columns == payload && r.jobs == s.jobs && SameUi(r, s)
  {
    s.(columns := payload)
  }

  /** `setJobs`: replaces the job list, assuming nothing. */
  function SetJobs(s: JobsState, payload: seq<Job>): (r: JobsState)
    ensures r.jobs == payload && r.columns == s.columns && SameUi(r, s)
  {
    s.(jobs := payload)
  }

  /** `addColumn`: appends the column as given. */
  function AddColumn(s: JobsState, column: Column): (r: JobsState)
    ensures r.columns == s.columns + [column] && r.jobs == s.jobs && SameUi(r, s)
  {
    s.(columns := s.columns + [column])
  }

  /**
   * `addJob`: the job is appended whatever its `columnId`; the first column with that
   * id, if any, counts one more job, and no other column changes.
   */
  function AddJob(s: JobsState, job: Job): (r: JobsState)
    ensures r.jobs == s.jobs + [job]
    ensures |r.columns| == |s.columns|
    ensures forall k :: 0 <= k < |s.columns| ==>
      r.columns[k] == if ColumnIndex(s.columns, job.columnId) == Some(k)
                      then s.columns[k].(count := s.columns[k].count + 1)
                      else s.columns[k]
    ensures !HasColumn(s.columns, job.columnId) ==> r.columns == s.columns
    ensures SameUi(r, s)
  {
    s.(jobs := s.jobs + [job], columns := AdjustCount(s.columns, job.columnId, 1))
  }

  /**
   * `moveJob`: a no-op when no job has the id or the job already sits in the target.
   * Otherwise the first job with the id is re-homed (even to a column that does not
   * exist), the first column of its old home counts one fewer and the first column
   * named by the target one more.
   */
  function MoveJob(s: JobsState, jobId: string, targetColumnId: string): (r: JobsState)
    ensures !HasJob(s.jobs, jobId) ==> r == s
    ensures JobIndex(s.jobs, jobId).Some? && s.jobs[JobIndex(s.jobs, jobId).value].columnId == targetColumnId ==> r == s
    ensures JobIndex(s.jobs, jobId).Some? && s.jobs[JobIndex(s.jobs, jobId).value].columnId != targetColumnId ==>
      var i := JobIndex(s.jobs, jobId).value;
      var source := s.jobs[i].columnId;
      && r.jobs == s.jobs[i := s.jobs[i].(columnId := targetColumnId)]
      && |r.columns| == |s.columns|
      && (forall k :: 0 <= k < |s.columns| ==>
            r.columns[k] == s.columns[k].(count := s.columns[k].count
                                 - (if ColumnIndex(s.columns, source) == Some(k) then 1 else 0)
                                 + (if ColumnIndex(s.columns, targetColumnId) == Some(k) then 1 else 0)))
    ensures SameUi(r, s)
  {
    match JobIndex(s.jobs, jobId)
    case None => s
    case Some(i) =>
      var job := s.jobs[i];
      if job.columnId == targetColumnId then s
      else
        var decremented := AdjustCount(s.columns, job.columnId, -1);
        ColumnIndexIgnoresCounts(s.columns, decremented, targetColumnId);
        s.(columns := AdjustCount(decremented, targetColumnId, 1),
           jobs := s.jobs[i := job.(columnId := targetColumnId)])
  }

  /** `toggleAddJobDialog`: flips only its own flag. */
  function ToggleAddJobDialog(s: JobsState): (r: JobsState)
    ensures r.showAddJobDialog == !s.showAddJobDialog
    ensures r.showAddColumnDialog == s.showAddColumnDialog && r.selectedColumn == s.selectedColumn
    ensures r.columns == s.columns && r.jobs == s.jobs
  {
    s.(showAddJobDialog := !s.showAddJobDialog)
  }

  /** `toggleAddColumnDialog`: flips only its own flag. */
  function ToggleAddColumnDialog(s: JobsState): (r: JobsState)
    ensures r.showAddColumnDialog == !s.showAddColumnDialog
    ensures r.showAddJobDialog == s.showAddJobDialog && r.selectedColumn == s.selectedColumn
    ensures r.columns == s.columns && r.jobs == s.jobs
  {
    s.(showAddColumnDialog := !s.showAddColumnDialog)
  }

  /** `setSelectedColumn`. */
  function SetSelectedColumn(s: JobsState, columnId: string): (r: JobsState)
    ensures r.selectedColumn == Some(columnId)
    ensures r.showAddJobDialog == s.showAddJobDialog && r.showAddColumnDialog == s.showAddColumnDialog
    ensures r.columns == s.columns && r.jobs == s.jobs
  {
    s.(selectedColumn := Some(columnId))
  }

  /**
   * `deleteColumn`: removes exactly the columns with the id and, in cascade, exactly the
   * jobs naming it; the survivors keep their fields and relative order (see `FilterAppend`).
   */
  function DeleteColumn(s: JobsState, columnId: string): (r: JobsState)
    ensures forall c :: c in r.columns <==> c in s.columns && c.id != columnId
    ensures forall j :: j in r.jobs <==> j in s.jobs && j.columnId != columnId
    ensures SameUi(r, s)
  {
    s.(columns := Filter(s.columns, ColumnNotNamed(columnId)),
       jobs := Filter(s.jobs, NotInColumn(columnId)))
  }

  /** `renameColumn`: changes only the title of the first column with the id; else a no-op. */
  function RenameColumn(s: JobsState, id: string, title: string): (r: JobsState)
    ensures !HasColumn(s.columns, id) ==> r == s
    ensures |r.columns| == |s.columns|
    ensures forall k :: 0 <= k < |s.columns| ==>
      r.columns[k] == if ColumnIndex(s.columns, id) == Some(k) then s.columns[k].(title := title) else s.columns[k]
    ensures r.jobs == s.jobs && SameUi(r, s)
  {
    match ColumnIndex(s.columns, id)
    case None => s
    case Some(i) => s.(columns := s.columns[i := s.columns[i].(title := title)])
  }

  /** `reorderColumns`: replaces the column list with the payload. */
  function ReorderColumns(s: JobsState, payload: seq<Column>): (r: JobsState)
    ensures r.columns == payload && r.jobs == s.jobs && SameUi(r, s)
  {
    s.(columns := payload)
  }

  /**
   * `updateJob`: a no-op when no job has the payload's id. Otherwise the first job with
   * that id is replaced in place (length and order kept), and the counts of its old and
   * new column move by one only when the payload changes `columnId`.
   */
  function UpdateJob(s: JobsState, job: Job): (r: JobsState)
    ensures !HasJob(s.jobs, job.id) ==> r == s
    ensures JobIndex(s.jobs, job.id).Some? ==>
      var i := JobIndex(s.jobs, job.id).value;
      var before := s.jobs[i].columnId;
      && r.jobs == s.jobs[i := job]
      && |r.columns| == |s.columns|
      && (before == job.columnId ==> r.columns == s.columns)
      && (before != job.columnId ==>
            forall k :: 0 <= k < |s.columns| ==>
              r.columns[k] == s.columns[k].(count := s.columns[k].count
                                   - (if ColumnIndex(s.columns, before) == Some(k) then 1 else 0)
                                   + (if ColumnIndex(s.columns, job.columnId) == Some(k) then 1 else 0)))
    ensures SameUi(r, s)
  {
    match JobIndex(s.jobs, job.id)
    case None => s
    case Some(i) =>
      var before := s.jobs[i];
      if before.columnId != job.columnId then
        var decremented := AdjustCount(s.columns, before.columnId, -1);
        ColumnIndexIgnoresCounts(s.columns, decremented, job.columnId);
        s.(columns := AdjustCount(decremented, job.columnId, 1), jobs := s.jobs[i := job])
      else
        s.(jobs := s.jobs[i := job])
  }

  /**
   * `deleteJob`: a no-op when no job has the id. Otherwise the first column of the first
   * such job's home counts one fewer, and every job with the id is removed.
   */
  function DeleteJob(s: JobsState, jobId: string): (r: JobsState)
    ensures !HasJob(s.jobs, jobId) ==> r == s
    ensures HasJob(s.jobs, jobId) ==>
      && (forall j :: j in r.jobs <==> j in s.jobs && j.id != jobId)
      && r.columns == AdjustCount(s.columns, s.jobs[JobIndex(s.jobs, jobId).value].columnId, -1)
    ensures SameUi(r, s)
  {
    match JobIndex(s.jobs, jobId)
    case None => s
    case Some(i) =>
      s.(columns := AdjustCount(s.columns, s.jobs[i].columnId, -1),
         jobs := Filter(s.jobs, JobNotNamed(jobId)))
  }

  /** `moveJob` as the sequence of steps the reducer takes: two `find`-and-adjust updates. */
  lemma MoveJobSteps(s: JobsState, jobId: string, targetColumnId: string)
    ensures MoveJob(s, jobId, targetColumnId) ==
      if JobIndex(s.jobs, jobId).Some? && s.jobs[JobIndex(s.jobs, jobId).value].columnId != targetColumnId then
        var i := JobIndex(s.jobs, jobId).value;
        s.(columns := AdjustCount(AdjustCount(s.columns, s.jobs[i].columnId, -1), targetColumnId, 1),
           jobs := s.jobs[i := s.jobs[i].(columnId := targetColumnId)])
      else s
  {
  }

  /** `updateJob` as the steps the reducer takes. */
  lemma UpdateJobSteps(s: JobsState, job: Job)
    ensures UpdateJob(s, job) ==
      if JobIndex(s.jobs, job.id).Some? then
        var i := JobIndex(s.jobs, job.id).value;
        if s.jobs[i].columnId != job.columnId then
          s.(columns := AdjustCount(AdjustCount(s.columns, s.jobs[i].columnId, -1), job.columnId, 1),
             jobs := s.jobs[i := job])
        else s.(jobs := s.jobs[i := job])
      else s
  {
  }

  // ----- lookup facts -----

  /** `find` on columns only looks at ids, so count updates do not move it. */
  lemma ColumnIndexIgnoresCounts(a: seq<Column>, b: seq<Column>, id: string)
    requires |a| == |b|
    requires forall k :: 0 <= k < |a| ==> a[k].id == b[k].id
    ensures ColumnIndex(a, id) == ColumnIndex(b, id)
  {
    FirstIndexSame(a, b, ColumnNamed(id));
  }

  /** `find` on jobs only looks at ids. */
  lemma JobIndexIgnoresOtherFields(a: seq<Job>, b: seq<Job>, id: string)
    requires |a| == |b|
    requires forall k :: 0 <= k < |a| ==> a[k].id == b[k].id
    ensures JobIndex(a, id) == JobIndex(b, id)
  {
    FirstIndexSame(a, b, JobNamed(id));
  }

  /** With unique ids, the column found is the only column with that id. */
  lemma UniqueColumnIndex(cols: seq<Column>, id: string, k: nat)
    requires UniqueColumnIds(cols) && k < |cols|
    ensures ColumnIndex(cols, id) == Some(k) <==> cols[k].id == id
  {
    if cols[k].id == id {
      FirstIndexUniqueKey(cols, k, ColumnId, ColumnNamed(id));
    }
  }

  /** With unique ids, the job `find` returns for `jobs[i].id` is the one at `i`. */
  lemma UniqueJobIndex(jobs: seq<Job>, i: nat)
    requires UniqueJobIds(jobs) && i < |jobs|
    ensures JobIndex(jobs, jobs[i].id) == Some(i)
  {
    FirstIndexUniqueKey(jobs, i, JobId, JobNamed(jobs[i].id));
  }

  /** A column is found exactly when one exists. */
  lemma ColumnIndexFinds(cols: seq<Column>, id: string)
    ensures ColumnIndex(cols, id).Some? <==> HasColumn(cols, id)
  {
    if HasColumn(cols, id) {
      var c :| c in cols && c.id == id;
      var k :| 0 <= k < |cols| && cols[k] == c;
      assert ColumnNamed(id)(cols[k]);
    }
  }

  // ----- counting facts -----

  lemma CountInAppend(jobs: seq<Job>, job: Job, id: string)
    ensures CountIn(jobs + [job], id) == CountIn(jobs, id) + (if job.columnId == id then 1 else 0)
  {
    FilterAppend(jobs, [job], InColumn(id));
    assert [job][1..] == [];
  }

  lemma CountInSplit(a: seq<Job>, b: seq<Job>, id: string)
    ensures CountIn(a + b, id) == CountIn(a, id) + CountIn(b, id)
  {
    FilterAppend(a, b, InColumn(id));
  }

  /** Replacing one job moves one unit of count from its old column to its new one. */
  lemma CountInReplace(jobs: seq<Job>, i: nat, job: Job, id: string)
    requires i < |jobs|
    ensures CountIn(jobs[i := job], id) ==
      CountIn(jobs, id) - (if jobs[i].columnId == id then 1 else 0) + (if job.columnId == id then 1 else 0)
  {
    assert jobs == jobs[..i] + [jobs[i]] + jobs[i + 1..];
    assert jobs[i := job] == jobs[..i] + [job] + jobs[i + 1..];
    CountInSplit(jobs[..i] + [jobs[i]], jobs[i + 1..], id);
    CountInSplit(jobs[..i] + [job], jobs[i + 1..], id);
    CountInAppend(jobs[..i], jobs[i], id);
    CountInAppend(jobs[..i], job, id);
  }

  /** With unique job ids, filtering one id out removes exactly the job at its position. */
  lemma RemoveUniqueJob(jobs: seq<Job>, i: nat)
    requires UniqueJobIds(jobs) && i < |jobs|
    ensures Filter(jobs, JobNotNamed(jobs[i].id)) == jobs[..i] + jobs[i + 1..]
  {
    FilterOutUniqueKey(jobs, i, JobId, JobNotNamed(jobs[i].id));
  }

  /** Changing fields other than the id keeps job ids unique. */
  lemma SameJobIdsKeepUnique(a: seq<Job>, b: seq<Job>)
    requires |a| == |b| && forall k :: 0 <= k < |a| ==> a[k].id == b[k].id
    requires UniqueJobIds(a)
    ensures UniqueJobIds(b)
  {
    forall x, y | 0 <= x < y < |b| ensures JobId(b[x]) != JobId(b[y]) {
      assert JobId(a[x]) != JobId(a[y]);
    }
  }

  /** Re-homing one job into an existing column leaves no job orphaned. */
  lemma RehomeKeepsNoOrphans(cols: seq<Column>, cols': seq<Column>, jobs: seq<Job>, i: nat, job: Job)
    requires NoOrphans(cols, jobs) && i < |jobs|
    requires forall x :: HasColumn(cols, x) ==> HasColumn(cols', x)
    requires HasColumn(cols', job.columnId)
    ensures NoOrphans(cols', jobs[i := job])
  {
    forall j | j in jobs[i := job] ensures HasColumn(cols', j.columnId) {
      var k :| 0 <= k < |jobs[i := job]| && jobs[i := job][k] == j;
      if k != i {
        assert jobs[k] in jobs;
      }
    }
  }

  // ----- the count invariant, reducer by reducer -----

  /** `addJob` keeps every count right, provided column ids are unique. */
  lemma AddJobKeepsCounts(s: JobsState, job: Job)
    requires UniqueColumnIds(s.columns) && CountsConsistent(s.columns, s.jobs)
    ensures CountsConsistent(AddJob(s, job).columns, AddJob(s, job).jobs)
  {
    var r := AddJob(s, job);
    forall c | c in r.columns ensures c.count == CountIn(r.jobs, c.id) {
      var k :| 0 <= k < |r.columns| && r.columns[k] == c;
      CountInAppend(s.jobs, job, c.id);
      UniqueColumnIndex(s.columns, job.columnId, k);
      assert s.columns[k] in s.columns;
    }
  }

  /** `moveJob` keeps every count right, provided column ids are unique. */
  lemma MoveJobKeepsCounts(s: JobsState, jobId: string, targetColumnId: string)
    requires UniqueColumnIds(s.columns) && CountsConsistent(s.columns, s.jobs)
    ensures CountsConsistent(MoveJob(s, jobId, targetColumnId).columns, MoveJob(s, jobId, targetColumnId).jobs)
  {
    var r := MoveJob(s, jobId, targetColumnId);
    var ji := JobIndex(s.jobs, jobId);
    if ji.Some? && s.jobs[ji.value].columnId != targetColumnId {
      var i := ji.value;
      var source := s.jobs[i].columnId;
      forall c | c in r.columns ensures c.count == CountIn(r.jobs, c.id) {
        var k :| 0 <= k < |r.columns| && r.columns[k] == c;
        CountInReplace(s.jobs, i, s.jobs[i].(columnId := targetColumnId), c.id);
        UniqueColumnIndex(s.columns, source, k);
        UniqueColumnIndex(s.columns, targetColumnId, k);
        assert s.columns[k] in s.columns;
      }
    }
  }

  /** `updateJob` keeps every count right, provided column ids are unique. */
  lemma UpdateJobKeepsCounts(s: JobsState, job: Job)
    requires UniqueColumnIds(s.columns) && CountsConsistent(s.columns, s.jobs)
    ensures CountsConsistent(UpdateJob(s, job).columns, UpdateJob(s, job).jobs)
  {
    var r := UpdateJob(s, job);
    var ji := JobIndex(s.jobs, job.id);
    if ji.Some? {
      var i := ji.value;
      var before := s.jobs[i].columnId;
      forall c | c in r.columns ensures c.count == CountIn(r.jobs, c.id) {
        var k :| 0 <= k < |r.columns| && r.columns[k] == c;
        CountInReplace(s.jobs, i, job, c.id);
        UniqueColumnIndex(s.columns, before, k);
        UniqueColumnIndex(s.columns, job.columnId, k);
        assert s.columns[k] in s.columns;
      }
    }
  }

  /** `deleteJob` keeps every count right, provided column ids and job ids are unique. */
  lemma DeleteJobKeepsCounts(s: JobsState, jobId: string)
    requires UniqueColumnIds(s.columns) && UniqueJobIds(s.jobs) && CountsConsistent(s.columns, s.jobs)
    ensures CountsConsistent(DeleteJob(s, jobId).columns, DeleteJob(s, jobId).jobs)
  {
    var r := DeleteJob(s, jobId);
    var ji := JobIndex(s.jobs, jobId);
    if ji.Some? {
      var i := ji.value;
      RemoveUniqueJob(s.jobs, i);
      assert r.jobs == s.jobs[..i] + s.jobs[i + 1..];
      forall c | c in r.columns ensures c.count == CountIn(r.jobs, c.id) {
        var k :| 0 <= k < |r.columns| && r.columns[k] == c;
        assert s.jobs == s.jobs[..i] + [s.jobs[i]] + s.jobs[i + 1..];
        CountInSplit(s.jobs[..i] + [s.jobs[i]], s.jobs[i + 1..], c.id);
        CountInAppend(s.jobs[..i], s.jobs[i], c.id);
        CountInSplit(s.jobs[..i], s.jobs[i + 1..], c.id);
        UniqueColumnIndex(s.columns, s.jobs[i].columnId, k);
        assert s.columns[k] in s.columns;
      }
    }
  }

  /** `deleteColumn` keeps every surviving count right: the jobs it drops named another column. */
  lemma DeleteColumnKeepsCounts(s: JobsState, columnId: string)
    requires CountsConsistent(s.columns, s.jobs)
    ensures CountsConsistent(DeleteColumn(s, columnId).columns, DeleteColumn(s, columnId).jobs)
  {
    var r := DeleteColumn(s, columnId);
    forall c | c in r.columns ensures c.count == CountIn(r.jobs, c.id) {
      FilterNested(s.jobs, NotInColumn(columnId), InColumn(c.id));
    }
  }

  /** `addColumn` of a column with a fresh id and `count: 0` keeps all four invariants. */
  lemma AddColumnKeepsInvariant(s: JobsState, column: Column)
    requires Invariant(s)
    requires !HasColumn(s.columns, column.id) && column.count == 0
    ensures Invariant(AddColumn(s, column))
  {
    forall k | 0 <= k < |s.columns| ensures ColumnId(s.columns[k]) != ColumnId(column) {
      assert s.columns[k] in s.columns;
    }
    DistinctAppend(s.columns, column, ColumnId);
    forall k | 0 <= k < |s.jobs| ensures !InColumn(column.id)(s.jobs[k]) {
      assert s.jobs[k] in s.jobs;
    }
    FilterKeepsNone(s.jobs, InColumn(column.id));
  }

  /** `addJob` of a job with a fresh id into an existing column keeps all four invariants. */
  lemma AddJobKeepsInvariant(s: JobsState, job: Job)
    requires Invariant(s)
    requires !HasJob(s.jobs, job.id) && HasColumn(s.columns, job.columnId)
    ensures Invariant(AddJob(s, job))
  {
    AddJobKeepsCounts(s, job);
    forall k | 0 <= k < |s.jobs| ensures JobId(s.jobs[k]) != JobId(job) {
      assert s.jobs[k] in s.jobs;
    }
    DistinctAppend(s.jobs, job, JobId);
    AdjustCountKeepsColumns(s.columns, job.columnId, 1);
  }

  /** `moveJob` into an existing column keeps all four invariants. */
  lemma MoveJobKeepsInvariant(s: JobsState, jobId: string, targetColumnId: string)
    requires Invariant(s) && HasColumn(s.columns, targetColumnId)
    ensures Invariant(MoveJob(s, jobId, targetColumnId))
  {
    var r := MoveJob(s, jobId, targetColumnId);
    MoveJobKeepsCounts(s, jobId, targetColumnId);
    var ji := JobIndex(s.jobs, jobId);
    if ji.Some? && s.jobs[ji.value].columnId != targetColumnId {
      var i := ji.value;
      var moved := s.jobs[i].(columnId := targetColumnId);
      RecountKeepsColumns(s.columns, s.jobs[i].columnId, targetColumnId);
      assert r.jobs == s.jobs[i := moved];
      SameJobIdsKeepUnique(s.jobs, r.jobs);
      RehomeKeepsNoOrphans(s.columns, r.columns, s.jobs, i, moved);
    }
  }

  /** `updateJob` with a payload naming an existing column keeps all four invariants. */
  lemma UpdateJobKeepsInvariant(s: JobsState, job: Job)
    requires Invariant(s) && HasColumn(s.columns, job.columnId)
    ensures Invariant(UpdateJob(s, job))
  {
    var r := UpdateJob(s, job);
    UpdateJobKeepsCounts(s, job);
    var ji := JobIndex(s.jobs, job.id);
    if ji.Some? {
      var i := ji.value;
      if s.jobs[i].columnId != job.columnId {
        RecountKeepsColumns(s.columns, s.jobs[i].columnId, job.columnId);
      }
      assert r.jobs == s.jobs[i := job];
      SameJobIdsKeepUnique(s.jobs, r.jobs);
      RehomeKeepsNoOrphans(s.columns, r.columns, s.jobs, i, job);
    }
  }

  /** `deleteJob` keeps all four invariants. */
  lemma DeleteJobKeepsInvariant(s: JobsState, jobId: string)
    requires Invariant(s)
    ensures Invariant(DeleteJob(s, jobId))
  {
    var r := DeleteJob(s, jobId);
    DeleteJobKeepsCounts(s, jobId);
    var ji := JobIndex(s.jobs, jobId);
    if ji.Some? {
      AdjustCountKeepsColumns(s.columns, s.jobs[ji.value].columnId, -1);
      FilterDistinct(s.jobs, JobNotNamed(jobId), JobId);
    }
  }

  /** `deleteColumn` keeps all four invariants: the cascade leaves no job orphaned. */
  lemma DeleteColumnKeepsInvariant(s: JobsState, columnId: string)
    requires Invariant(s)
    ensures Invariant(DeleteColumn(s, columnId))
  {
    var r := DeleteColumn(s, columnId);
    DeleteColumnKeepsCounts(s, columnId);
    FilterDistinct(s.columns, ColumnNotNamed(columnId), ColumnId);
    FilterDistinct(s.jobs, NotInColumn(columnId), JobId);
    forall j | j in r.jobs ensures HasColumn(r.columns, j.columnId) {
      var c :| c in s.columns && c.id == j.columnId;
      assert c in r.columns;
    }
  }

  /** `renameColumn` keeps all four invariants: ids and counts are untouched. */
  lemma RenameColumnKeepsInvariant(s: JobsState, id: string, title: string)
    requires Invariant(s)
    ensures Invariant(RenameColumn(s, id, title))
  {
    var r := RenameColumn(s, id, title);
    assert UniqueColumnIds(r.columns) by {
      forall a, b | 0 <= a < b < |r.columns| ensures ColumnId(r.columns[a]) != ColumnId(r.columns[b]) {
        assert ColumnId(s.columns[a]) != ColumnId(s.columns[b]);
      }
    }
    forall c | c in r.columns ensures c.count == CountIn(r.jobs, c.id) {
      var k :| 0 <= k < |r.columns| && r.columns[k] == c;
      assert s.columns[k] in s.columns;
    }
    forall j | j in r.jobs ensures HasColumn(r.columns, j.columnId) {
      var c :| c in s.columns && c.id == j.columnId;
      var k :| 0 <= k < |s.columns| && s.columns[k] == c;
      assert r.columns[k] in r.columns;
    }
  }

  /**
   * `reorderColumns` with a permutation of the current columns keeps the counts right
   * and leaves no job orphaned (uniqueness is shown for the board's own reorder).
   */
  lemma ReorderColumnsKeepsCounts(s: JobsState, payload: seq<Column>)
    requires multiset(payload) == multiset(s.columns)
    requires CountsConsistent(s.columns, s.jobs) && NoOrphans(s.columns, s.jobs)
    ensures CountsConsistent(ReorderColumns(s, payload).columns, s.jobs)
    ensures NoOrphans(ReorderColumns(s, payload).columns, s.jobs)
  {
    forall c ensures c in payload <==> c in s.columns {
      assert c in payload <==> c in multiset(payload);
      assert c in s.columns <==> c in multiset(s.columns);
    }
  }

  /** Count updates keep column ids, and so keep uniqueness and existence. */
  lemma AdjustCountKeepsColumns(cols: seq<Column>, id: string, delta: int)
    ensures forall k :: 0 <= k < |cols| ==> AdjustCount(cols, id, delta)[k].id == cols[k].id
    ensures UniqueColumnIds(cols) ==> UniqueColumnIds(AdjustCount(cols, id, delta))
    ensures forall x :: HasColumn(cols, x) ==> HasColumn(AdjustCount(cols, id, delta), x)
  {
    var r := AdjustCount(cols, id, delta);
    forall x | HasColumn(cols, x) ensures HasColumn(r, x) {
      var c :| c in cols && c.id == x;
      var k :| 0 <= k < |cols| && cols[k] == c;
      assert r[k] in r;
    }
    if UniqueColumnIds(cols) {
      forall a, b | 0 <= a < b < |r| ensures ColumnId(r[a]) != ColumnId(r[b]) {
        assert ColumnId(cols[a]) != ColumnId(cols[b]);
      }
    }
  }

  /** Moving one unit of count between two columns keeps the column ids. */
  lemma RecountKeepsColumns(cols: seq<Column>, source: string, target: string)
    ensures var r := AdjustCount(AdjustCount(cols, source, -1), target, 1);
      && (UniqueColumnIds(cols) ==> UniqueColumnIds(r))
      && (forall x :: HasColumn(cols, x) ==> HasColumn(r, x))
  {
    AdjustCountKeepsColumns(cols, source, -1);
    AdjustCountKeepsColumns(AdjustCount(cols, source, -1), target, 1);
  }

  // ----- the remaining properties -----

  /** `moveJob(j, X)` twice in a row is the same as once. */
  lemma MoveJobIdempotent(s: JobsState, jobId: string, targetColumnId: string)
    ensures MoveJob(MoveJob(s, jobId, targetColumnId), jobId, targetColumnId) == MoveJob(s, jobId, targetColumnId)
  {
    var r := MoveJob(s, jobId, targetColumnId);
    JobIndexIgnoresOtherFields(s.jobs, r.jobs, jobId);
  }

  /** Deleting a column that does not exist changes nothing when no job is orphaned. */
  lemma DeleteMissingColumn(s: JobsState, columnId: string)
    requires !HasColumn(s.columns, columnId) && NoOrphans(s.columns, s.jobs)
    ensures DeleteColumn(s, columnId) == s
  {
    forall k | 0 <= k < |s.columns| ensures ColumnNotNamed(columnId)(s.columns[k]) {
      assert s.columns[k] in s.columns;
    }
    FilterKeepsAll(s.columns, ColumnNotNamed(columnId));
    forall k | 0 <= k < |s.jobs| ensures NotInColumn(columnId)(s.jobs[k]) {
      assert s.jobs[k] in s.jobs;
    }
    FilterKeepsAll(s.jobs, NotInColumn(columnId));
  }

  /**
   * `deleteColumn` keeps the survivors in order: cutting either list anywhere, the
   * survivors before the cut come first, followed by the survivors after it.
   */
  lemma DeleteColumnKeepsOrder(s: JobsState, columnId: string, i: nat, j: nat)
    requires i <= |s.columns| && j <= |s.jobs|
    ensures DeleteColumn(s, columnId).columns ==
      Filter(s.columns[..i], ColumnNotNamed(columnId)) + Filter(s.columns[i..], ColumnNotNamed(columnId))
    ensures DeleteColumn(s, columnId).jobs ==
      Filter(s.jobs[..j], NotInColumn(columnId)) + Filter(s.jobs[j..], NotInColumn(columnId))
  {
    assert s.columns == s.columns[..i] + s.columns[i..];
    FilterAppend(s.columns[..i], s.columns[i..], ColumnNotNamed(columnId));
    assert s.jobs == s.jobs[..j] + s.jobs[j..];
    FilterAppend(s.jobs[..j], s.jobs[j..], NotInColumn(columnId));
  }

  /** Each dialog toggle undoes itself. */
  lemma TogglesAreInvolutions(s: JobsState)
    ensures ToggleAddJobDialog(ToggleAddJobDialog(s)) == s
    ensures ToggleAddColumnDialog(ToggleAddColumnDialog(s)) == s
  {
  }

  /** The empty board satisfies every invariant. */
  lemma InitialStateValid()
    ensures Invariant(InitialState)
  {
  }
}
