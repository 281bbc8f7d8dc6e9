/**
 * The store itself (src/redux/features/jobs/jobsSlice.ts): an object whose fields the
 * reducers update in place, one method per reducer. Each method's body follows the
 * reducer's steps (`find`, then mutate what was found) and its contract ties the new
 * state to the transition function of the same name in `JobsReducer`.
 */
module JobsSlice {
  import opened Wrappers
  import opened Seqs
  import opened Types
  import R = JobsReducer

  class JobsStore {
    var columns: seq<Column>
    var jobs: seq<Job>
    var showAddJobDialog: bool
    var showAddColumnDialog: bool
    var selectedColumn: Option<string>

    /** The state as a value. */
    function State(): R.JobsState
      reads this
    {
      R.JobsState(columns, jobs, showAddJobDialog, showAddColumnDialog, selectedColumn)
    }

    /** The store starts from `initialState`. */
    constructor ()
      ensures State() == R.InitialState
    {
      columns := [];
      jobs := [];
      showAddJobDialog := false;
      showAddColumnDialog := false;
      selectedColumn := None;
    }

    /**
     * The step the reducers repeat: `find` the first column with the id and, if there
     * is one, move its count by `delta`. Only that column's count changes.
     */
    method AdjustColumnCount(id: string, delta: int)
      modifies this
      ensures columns == R.AdjustCount(old(columns), id, delta)
      ensures jobs == old(jobs) && showAddJobDialog == old(showAddJobDialog)
      ensures showAddColumnDialog == old(showAddColumnDialog) && selectedColumn == old(selectedColumn)
    {
      var column := R.ColumnIndex(columns, id);
      if column.Some? {
        columns := columns[column.value := columns[column.value].(count := columns[column.value].count + delta)];
      }
    }

    method SetColumns(payload: seq<Column>)
      modifies this
      ensures State() == R.SetColumns(old(State()), payload)
    {
      columns := payload;
    }

    method SetJobs(payload: seq<Job>)
      modifies this
      ensures State() == R.SetJobs(old(State()), payload)
    {
      jobs := payload;
    }

    method AddColumn(column: Column)
      modifies this
      ensures State() == R.AddColumn(old(State()), column)
      ensures R.Invariant(old(State())) && !R.HasColumn(old(columns), column.id) && column.count == 0
              ==> R.Invariant(State())
    {
      columns := columns + [column];
      if R.Invariant(old(State())) && !R.HasColumn(old(columns), column.id) && column.count == 0 {
        R.AddColumnKeepsInvariant(old(State()), column);
      }
    }

    method AddJob(job: Job)
      modifies this
      ensures State() == R.AddJob(old(State()), job)
      ensures R.Invariant(old(State())) && !R.HasJob(old(jobs), job.id) && R.HasColumn(old(columns), job.columnId)
              ==> R.Invariant(State())
    {
      jobs := jobs + [job];
      AdjustColumnCount(job.columnId, 1);
      if R.Invariant(old(State())) && !R.HasJob(old(jobs), job.id) && R.HasColumn(old(columns), job.columnId) {
        R.AddJobKeepsInvariant(old(State()), job);
      }
    }

    method MoveJob(jobId: string, targetColumnId: string)
      modifies this
      ensures State() == R.MoveJob(old(State()), jobId, targetColumnId)
      ensures R.Invariant(old(State())) && R.HasColumn(old(columns), targetColumnId) ==> R.Invariant(State())
    {
      R.MoveJobSteps(State(), jobId, targetColumnId);
      var found := R.JobIndex(jobs, jobId);
      if found.Some? && jobs[found.value].columnId != targetColumnId {
        var job := jobs[found.value];
        AdjustColumnCount(job.columnId, -1);
        jobs := jobs[found.value := job.(columnId := targetColumnId)];
        AdjustColumnCount(targetColumnId, 1);
      }
      if R.Invariant(old(State())) && R.HasColumn(old(columns), targetColumnId) {
        R.MoveJobKeepsInvariant(old(State()), jobId, targetColumnId);
      }
    }

    method ToggleAddJobDialog()
      modifies this
      ensures State() == R.ToggleAddJobDialog(old(State()))
    {
      showAddJobDialog := !showAddJobDialog;
    }

    method ToggleAddColumnDialog()
      modifies this
      ensures State() == R.ToggleAddColumnDialog(old(State()))
    {
      showAddColumnDialog := !showAddColumnDialog;
    }

    method SetSelectedColumn(columnId: string)
      modifies this
      ensures State() == R.SetSelectedColumn(old(State()), columnId)
    {
      selectedColumn := Some(columnId);
    }

    method DeleteColumn(columnId: string)
      modifies this
      ensures State() == R.DeleteColumn(old(State()), columnId)
      ensures R.Invariant(old(State())) ==> R.Invariant(State())
    {
      columns := Filter(columns, R.ColumnNotNamed(columnId));
      jobs := Filter(jobs, R.NotInColumn(columnId));
      if R.Invariant(old(State())) {
        R.DeleteColumnKeepsInvariant(old(State()), columnId);
      }
    }

    method RenameColumn(id: string, title: string)
      modifies this
      ensures State() == R.RenameColumn(old(State()), id, title)
      ensures R.Invariant(old(State())) ==> R.Invariant(State())
    {
      var found := R.ColumnIndex(columns, id);
      if found.Some? {
        columns := columns[found.value := columns[found.value].(title := title)];
      }
      if R.Invariant(old(State())) {
        R.RenameColumnKeepsInvariant(old(State()), id, title);
      }
    }

    method ReorderColumns(payload: seq<Column>)
      modifies this
      ensures State() == R.ReorderColumns(old(State()), payload)
    {
      columns := payload;
    }

    /**
     * The reducer looks up both columns before changing either; looking the new one up
     * after the old one's count has moved finds the same column, since `find` compares
     * ids only (`JobsReducer.ColumnIndexIgnoresCounts`).
     */
    method UpdateJob(job: Job)
      modifies this
      ensures State() == R.UpdateJob(old(State()), job)
      ensures R.Invariant(old(State())) && R.HasColumn(old(columns), job.columnId) ==> R.Invariant(State())
    {
      R.UpdateJobSteps(State(), job);
      var index := R.JobIndex(jobs, job.id);
      if index.Some? {
        var oldJob := jobs[index.value];
        if oldJob.columnId != job.columnId {
          AdjustColumnCount(oldJob.columnId, -1);
          AdjustColumnCount(job.columnId, 1);
        }
        jobs := jobs[index.value := job];
      }
      if R.Invariant(old(State())) && R.HasColumn(old(columns), job.columnId) {
        R.UpdateJobKeepsInvariant(old(State()), job);
      }
    }

    method DeleteJob(jobId: string)
      modifies this
      ensures State() == R.DeleteJob(old(State()), jobId)
      ensures R.Invariant(old(State())) ==> R.Invariant(State())
    {
      var found := R.JobIndex(jobs, jobId);
      if found.Some? {
        AdjustColumnCount(jobs[found.value].columnId, -1);
        jobs := Filter(jobs, R.JobNotNamed(jobId));
      }
      if R.Invariant(old(State())) {
        R.DeleteJobKeepsInvariant(old(State()), jobId);
      }
    }
  }
}
