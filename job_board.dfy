/**
 * The board of src/components/job-board.tsx: the column reorder behind
 * `handleMoveColumn` (copy the list, splice the dragged column out, splice it back in
 * at the hovered index, dispatch `reorderColumns`), the job move behind
 * `handleMoveJob`, and the per-column job list each column is rendered with.
 */
module JobBoard {
  import opened Seqs
  import opened Types
  import R = JobsReducer
  import S = JobsSlice

  /** `list.splice(i, 1)`: the element at `i` taken out. */
  function RemoveAt<T>(s: seq<T>, i: nat): (r: seq<T>)
    requires i < |s|
    ensures |r| == |s| - 1
    ensures forall k :: 0 <= k < |r| ==> r[k] == if k < i then s[k] else s[k + 1]
  {
    s[..i] + s[i + 1..]
  }

  /** `list.splice(i, 0, x)`: `x` put in front of the element at `i`. */
  function InsertAt<T>(s: seq<T>, i: nat, x: T): (r: seq<T>)
    requires i <= |s|
    ensures |r| == |s| + 1 && r[i] == x
    ensures forall k :: 0 <= k < |r| && k != i ==> r[k] == if k < i then s[k] else s[k - 1]
  {
    s[..i] + [x] + s[i..]
  }

  /** The list `handleMoveColumn` dispatches, for indexes the board rendered. */
  function MoveColumn<T>(cols: seq<T>, dragIndex: nat, hoverIndex: nat): (r: seq<T>)
    requires dragIndex < |cols| && hoverIndex < |cols|
    ensures |r| == |cols|
    ensures r[hoverIndex] == cols[dragIndex]
  {
    InsertAt(RemoveAt(cols, dragIndex), hoverIndex, cols[dragIndex])
  }

  /**
   * Where the element at position `k` of the reordered list comes from: the hovered slot
   * takes the dragged column, the columns between the two indexes shift by one towards
   * the drag index, and the rest stay put.
   */
  function SourceIndex(dragIndex: nat, hoverIndex: nat, k: nat): nat {
    if k == hoverIndex then dragIndex
    else if dragIndex <= k < hoverIndex then k + 1
    else if hoverIndex < k <= dragIndex then k - 1
    else k
  }

  /** The reorder, position by position: a description independent of the splices. */
  lemma MoveColumnPositions<T>(cols: seq<T>, dragIndex: nat, hoverIndex: nat)
    requires dragIndex < |cols| && hoverIndex < |cols|
    ensures var r := MoveColumn(cols, dragIndex, hoverIndex);
      && |r| == |cols|
      && forall k :: 0 <= k < |r| ==>
           SourceIndex(dragIndex, hoverIndex, k) < |cols| && r[k] == cols[SourceIndex(dragIndex, hoverIndex, k)]
  {
    var removed := RemoveAt(cols, dragIndex);
    var r := InsertAt(removed, hoverIndex, cols[dragIndex]);
    forall k | 0 <= k < |r|
      ensures SourceIndex(dragIndex, hoverIndex, k) < |cols| && r[k] == cols[SourceIndex(dragIndex, hoverIndex, k)]
    {
      if k != hoverIndex {
        var j := if k < hoverIndex then k else k - 1;
        assert r[k] == removed[j];
        assert removed[j] == if j < dragIndex then cols[j] else cols[j + 1];
      }
    }
  }

  /** Every other column keeps its relative order: without the moved one, nothing changed. */
  lemma MoveColumnKeepsOrder<T>(cols: seq<T>, dragIndex: nat, hoverIndex: nat)
    requires dragIndex < |cols| && hoverIndex < |cols|
    ensures RemoveAt(MoveColumn(cols, dragIndex, hoverIndex), hoverIndex) == RemoveAt(cols, dragIndex)
  {
    var removed := RemoveAt(cols, dragIndex);
    assert InsertAt(removed, hoverIndex, cols[dragIndex]) == removed[..hoverIndex] + [cols[dragIndex]] + removed[hoverIndex..];
    var r := MoveColumn(cols, dragIndex, hoverIndex);
    assert r[..hoverIndex] == removed[..hoverIndex];
    assert r[hoverIndex + 1..] == removed[hoverIndex..];
  }

  /** The reorder is a permutation: same length, same columns, no field changed. */
  lemma MoveColumnPermutes<T>(cols: seq<T>, dragIndex: nat, hoverIndex: nat)
    requires dragIndex < |cols| && hoverIndex < |cols|
    ensures multiset(MoveColumn(cols, dragIndex, hoverIndex)) == multiset(cols)
  {
    var removed := RemoveAt(cols, dragIndex);
    assert cols == cols[..dragIndex] + [cols[dragIndex]] + cols[dragIndex + 1..];
    assert multiset(cols) == multiset(removed) + multiset{cols[dragIndex]};
    var r := MoveColumn(cols, dragIndex, hoverIndex);
    assert r == removed[..hoverIndex] + [cols[dragIndex]] + removed[hoverIndex..];
    assert removed == removed[..hoverIndex] + removed[hoverIndex..];
  }

  /** Dropping a column back onto its own slot leaves the order as it was. */
  lemma MoveColumnInPlace<T>(cols: seq<T>, i: nat)
    requires i < |cols|
    ensures MoveColumn(cols, i, i) == cols
  {
    assert RemoveAt(cols, i)[..i] == cols[..i];
    assert RemoveAt(cols, i)[i..] == cols[i + 1..];
  }

  /** Column ids stay unique under the reorder. */
  lemma MoveColumnKeepsUniqueIds(cols: seq<Column>, dragIndex: nat, hoverIndex: nat)
    requires R.UniqueColumnIds(cols)
    requires dragIndex < |cols| && hoverIndex < |cols|
    ensures R.UniqueColumnIds(MoveColumn(cols, dragIndex, hoverIndex))
  {
    var r := MoveColumn(cols, dragIndex, hoverIndex);
    MoveColumnPositions(cols, dragIndex, hoverIndex);
    forall a, b | 0 <= a < b < |r| ensures ColumnId(r[a]) != ColumnId(r[b]) {
      var sa, sb := SourceIndex(dragIndex, hoverIndex, a), SourceIndex(dragIndex, hoverIndex, b);
      assert sa != sb;
      if sa < sb {
        assert ColumnId(cols[sa]) != ColumnId(cols[sb]);
      } else {
        assert ColumnId(cols[sb]) != ColumnId(cols[sa]);
      }
    }
  }

  /** A column reorder dispatched through `reorderColumns` keeps the store's invariant. */
  lemma MoveColumnKeepsInvariant(s: R.JobsState, dragIndex: nat, hoverIndex: nat)
    requires R.Invariant(s)
    requires dragIndex < |s.columns| && hoverIndex < |s.columns|
    ensures R.Invariant(R.ReorderColumns(s, MoveColumn(s.columns, dragIndex, hoverIndex)))
  {
    var payload := MoveColumn(s.columns, dragIndex, hoverIndex);
    MoveColumnPermutes(s.columns, dragIndex, hoverIndex);
    MoveColumnKeepsUniqueIds(s.columns, dragIndex, hoverIndex);
    R.ReorderColumnsKeepsCounts(s, payload);
  }

  /**
   * `handleMoveColumn`: the store's list is copied, the copy is spliced twice and
   * dispatched as the new column order; nothing else in the store changes.
   */
  method HandleMoveColumn(store: S.JobsStore, dragIndex: nat, hoverIndex: nat)
    requires dragIndex < |store.columns| && hoverIndex < |store.columns|
    modifies store
    ensures store.State() == R.ReorderColumns(old(store.State()), MoveColumn(old(store.columns), dragIndex, hoverIndex))
    ensures R.Invariant(old(store.State())) ==> R.Invariant(store.State())
  {
    var newColumns := store.columns;
    var draggedColumn := newColumns[dragIndex];
    newColumns := RemoveAt(newColumns, dragIndex);
    newColumns := InsertAt(newColumns, hoverIndex, draggedColumn);
    store.ReorderColumns(newColumns);
    if R.Invariant(old(store.State())) {
      MoveColumnKeepsInvariant(old(store.State()), dragIndex, hoverIndex);
    }
  }

  /** `handleMoveJob`: exactly one `moveJob` with the given job and target. */
  method HandleMoveJob(store: S.JobsStore, jobId: string, targetColumnId: string)
    modifies store
    ensures store.State() == R.MoveJob(old(store.State()), jobId, targetColumnId)
  {
    store.MoveJob(jobId, targetColumnId);
  }

  /**
   * The cards a column is rendered with (`jobs.filter` on its id): exactly the jobs
   * naming it, and in store order, since the filter of a concatenation is the
   * concatenation of the filters.
   */
  lemma ColumnCardsInOrder(front: seq<Job>, back: seq<Job>, id: string)
    ensures forall j :: j in R.ColumnJobs(front + back, id) <==> j in front + back && j.columnId == id
    ensures R.ColumnJobs(front + back, id) == R.ColumnJobs(front, id) + R.ColumnJobs(back, id)
  {
    FilterAppend(front, back, R.InColumn(id));
  }

  /**
   * With unique column ids and no orphans, every job is rendered on exactly one column:
   * the one its `columnId` names.
   */
  lemma EachJobOnOneColumn(s: R.JobsState, j: Job, k: nat)
    requires R.Invariant(s)
    requires j in s.jobs && k < |s.columns|
    ensures j in R.ColumnJobs(s.jobs, s.columns[k].id) <==> s.columns[k].id == j.columnId
    ensures exists m :: 0 <= m < |s.columns| && s.columns[m].id == j.columnId
  {
    assert R.HasColumn(s.columns, j.columnId);
    var c :| c in s.columns && c.id == j.columnId;
    var m :| 0 <= m < |s.columns| && s.columns[m] == c;
    assert s.columns[m].id == j.columnId;
  }

  /** The count badge each column shows equals the number of cards rendered under it. */
  lemma BadgeMatchesCards(s: R.JobsState, k: nat)
    requires R.CountsConsistent(s.columns, s.jobs) && k < |s.columns|
    ensures s.columns[k].count == |R.ColumnJobs(s.jobs, s.columns[k].id)|
  {
    assert s.columns[k] in s.columns;
  }
}
