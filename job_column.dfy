/**
 * One board column, src/components/job-column.tsx: the hover guard that reorders
 * columns while one is dragged over another, the drop of a job card, the "Add card"
 * button and the title rename.
 *
 * While a column is dragged, the drag library hands every hover the same item object,
 * whose `index` the handler overwrites after each reorder it fires; the item is a class
 * here for that reason.
 */
module JobColumn {
  import opened Wrappers
  import opened Types
  import R = JobsReducer
  import S = JobsSlice
  import JobBoard
  import JobCard

  /** The item a dragged column carries: the index the column was last seen at. */
  class ColumnDragItem {
    var index: nat

    constructor (index: nat)
      ensures this.index == index
    {
      this.index := index;
    }
  }

  /** What one hover decides: whether it reorders, the tracked index and the column order after it. */
  datatype HoverStep = HoverStep(fired: bool, tracked: nat, columns: seq<Column>)

  /**
   * The hover guard on the store's columns: a hover over the slot the item was last seen
   * at does nothing; any other slot reorders once and moves the tracked index there.
   */
  function Hover(tracked: nat, index: nat, cols: seq<Column>): (h: HoverStep)
    requires tracked < |cols| && index < |cols|
    ensures h.fired <==> tracked != index
    ensures h.tracked == index && |h.columns| == |cols|
    ensures h.fired ==> h.columns == JobBoard.MoveColumn(cols, tracked, index)
    ensures !h.fired ==> h.columns == cols
  {
    if tracked != index then HoverStep(true, index, JobBoard.MoveColumn(cols, tracked, index))
    else HoverStep(false, tracked, cols)
  }

  /** A second hover over the same column, with nothing moved in between, fires nothing. */
  lemma HoverAgainIsQuiet(tracked: nat, index: nat, cols: seq<Column>)
    requires tracked < |cols| && index < |cols|
    ensures var h := Hover(tracked, index, cols);
      var again := Hover(h.tracked, index, h.columns);
      !again.fired && again.columns == h.columns && again.tracked == h.tracked
  {
  }

  /**
   * The tracked index keeps pointing at the dragged column: if it did before a hover, it
   * does after it, whether or not the hover fired.
   */
  lemma HoverTracksDragged(tracked: nat, index: nat, cols: seq<Column>, dragged: Column)
    requires tracked < |cols| && index < |cols| && cols[tracked] == dragged
    ensures var h := Hover(tracked, index, cols); h.columns[h.tracked] == dragged
  {
  }

  /** A committed hover keeps the store's invariant: it only reorders the columns. */
  lemma HoverKeepsInvariant(s: R.JobsState, tracked: nat, index: nat)
    requires R.Invariant(s) && tracked < |s.columns| && index < |s.columns|
    ensures R.Invariant(s.(columns := Hover(tracked, index, s.columns).columns))
  {
    if tracked != index {
      JobBoard.MoveColumnKeepsInvariant(s, tracked, index);
    }
  }

  /**
   * The `hover` callback: when the item's index differs from this column's, call
   * `onMoveColumn(item.index, index)` (the board's `handleMoveColumn`) and record the new
   * index on the item.
   */
  method HandleHover(item: ColumnDragItem, index: nat, store: S.JobsStore) returns (fired: bool)
    requires item.index < |store.columns| && index < |store.columns|
    modifies item, store
    ensures var h := Hover(old(item.index), index, old(store.columns));
      && fired == h.fired
      && item.index == h.tracked
      && store.State() == old(store.State()).(columns := h.columns)
  {
    fired := false;
    if item.index != index {
      JobBoard.HandleMoveColumn(store, item.index, index);
      item.index := index;
      fired := true;
    }
  }

  /** The `drop` callback: exactly one move, of the dropped card's job, into this column. */
  method HandleDrop(item: JobCard.JobDragItem, column: Column, store: S.JobsStore)
    modifies store
    ensures store.State() == R.MoveJob(old(store.State()), item.id, column.id)
  {
    JobBoard.HandleMoveJob(store, item.id, column.id);
  }

  /**
   * Dropping the card of a job with a unique id on another column re-homes that job and
   * leaves every other job as it was.
   */
  lemma DropMovesDraggedCard(s: R.JobsState, i: nat, column: Column)
    requires R.UniqueJobIds(s.jobs) && i < |s.jobs|
    requires s.jobs[i].columnId != column.id
    ensures var r := R.MoveJob(s, JobCard.DragItem(s.jobs[i]).id, column.id);
      && |r.jobs| == |s.jobs|
      && r.jobs[i] == s.jobs[i].(columnId := column.id)
      && forall k :: 0 <= k < |s.jobs| && k != i ==> r.jobs[k] == s.jobs[k]
  {
    R.UniqueJobIndex(s.jobs, i);
  }

  /** "Add card": select this column, then open the add-job dialog. */
  method HandleAddJob(column: Column, store: S.JobsStore)
    modifies store
    ensures store.State() == R.ToggleAddJobDialog(R.SetSelectedColumn(old(store.State()), column.id))
  {
    store.SetSelectedColumn(column.id);
    store.ToggleAddJobDialog();
  }

  /** The rename callback handed to the title editor: `renameColumn` for this column's id. */
  method HandleRenameColumn(column: Column, newTitle: string, store: S.JobsStore)
    modifies store
    ensures store.State() == R.RenameColumn(old(store.State()), column.id, newTitle)
  {
    store.RenameColumn(column.id, newTitle);
  }
}
