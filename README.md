# JobTracker board state, in Dafny

JobTracker is a Kanban-style board for job applications. Its state lives in a Redux
slice (`src/redux/features/jobs/jobsSlice.ts`). The slice holds a list of columns, a list
of jobs, two dialog flags and the id of the selected column. Each column caches a
`count` of the jobs that name it. Around the slice sit small React components:

- the board, which reorders columns by drag and drop and shows each column's cards;
- the column, which guards the drag hover, accepts dropped cards and renames itself;
- the card, which prints a job's age;
- the drawer, which edits a job's form, todos and files;
- the file list, which creates and revokes object URLs for attachments;
- the inline title editor.

This project models those pieces and proves what they promise:

- The reducers are pure transition functions on a `JobsState` value (`JobsReducer`). The
  store is a class with the same fields (`JobsSlice.JobsStore`). Each of its methods
  updates the fields in place as the reducer does, and is proved to reach the state the
  transition function gives.
- The central invariant is `JobsReducer.Invariant`. Column ids are unique, job ids are
  unique, every job names an existing column, and every column's `count` equals the
  number of jobs naming it. The reducers are deliberately lax: `addJob` appends a job
  even when no column matches, and `moveJob` and `updateJob` re-home a job to any id.
  So each preservation lemma states the precondition under which the invariant
  survives.
- `find` returns the first match, so every lookup is `Seqs.FirstIndex`. `filter` is
  `Seqs.Filter`.
- `JobsReducer.MoveJobSteps` and `JobsReducer.UpdateJobSteps` are proof helpers. They
  unfold `MoveJob` and `UpdateJob` into their count adjustments for the store's
  in-place methods, and they state nothing beyond those definitions.
- Things the browser supplies become parameters: `generateId`, `new Date()` and the
  current time. `URL.createObjectURL` and `URL.revokeObjectURL` become a registry class
  (`ObjectUrls.UrlRegistry`). It hands out distinct handles and keeps a ghost set of the
  live ones.

Files: `wrappers.dfy` (Option), `seqs.dfy` (filter/find on sequences), `text.dfy`
(JavaScript `trim` and number printing), `types.dfy` (the four record types),
`jobs_reducer.dfy`, `jobs_slice.dfy`, `object_urls.dfy`, `job_board.dfy`, `job_column.dfy`,
`job_card.dfy`, `job_drawer.dfy`, `file_upload.dfy`, `editable_text.dfy`.

## Model

| member | source | states |
|---|---|---|
| JobsReducer.InitialStateValid | src/redux/features/jobs/jobsSlice.ts:12-18 | the empty initial board satisfies all four invariants |
| JobsReducer.SetColumns | src/redux/features/jobs/jobsSlice.ts:24-26 | the column list becomes the payload; jobs, flags and selection are untouched |
| JobsReducer.SetJobs | src/redux/features/jobs/jobsSlice.ts:27-29 | the job list becomes the payload; everything else is untouched |
| JobsReducer.AddColumn | src/redux/features/jobs/jobsSlice.ts:30-32 | the column is appended last; jobs and UI fields are untouched |
| JobsReducer.AdjustCount | src/redux/features/jobs/jobsSlice.ts:37-40 | find-then-bump: only the first column with the id changes, and only its count, by delta; length kept |
| JobsReducer.AddJob | src/redux/features/jobs/jobsSlice.ts:33-41 | job appended last; only the first column with its columnId counts one more; with no such column the job is still appended and no count changes |
| JobsReducer.MoveJob | src/redux/features/jobs/jobsSlice.ts:42-62 | absent id or job already in target: state unchanged; otherwise only that job's columnId becomes the target, the first source column counts one fewer and the first target column one more |
| JobsReducer.ToggleAddJobDialog | src/redux/features/jobs/jobsSlice.ts:63-65 | flips the add-job flag and nothing else |
| JobsReducer.ToggleAddColumnDialog | src/redux/features/jobs/jobsSlice.ts:66-68 | flips the add-column flag and nothing else |
| JobsReducer.TogglesAreInvolutions | src/redux/features/jobs/jobsSlice.ts:63-68 | toggling either dialog twice restores the state |
| JobsReducer.SetSelectedColumn | src/redux/features/jobs/jobsSlice.ts:69-71 | the selection becomes the id; lists and flags untouched |
| JobsReducer.DeleteColumn | src/redux/features/jobs/jobsSlice.ts:72-78 | a column survives iff its id differs; a job survives iff its columnId differs (the cascade); UI fields untouched |
| JobsReducer.DeleteColumnKeepsOrder | src/redux/features/jobs/jobsSlice.ts:75-77 | survivors keep their relative order in both lists |
| JobsReducer.DeleteMissingColumn | src/redux/features/jobs/jobsSlice.ts:72-78 | deleting an id no column has changes nothing when no job is orphaned |
| JobsReducer.RenameColumn | src/redux/features/jobs/jobsSlice.ts:79-85 | only the first matching column's title changes; a missing id is a no-op |
| JobsReducer.ReorderColumns | src/redux/features/jobs/jobsSlice.ts:86-88 | the column list becomes the payload; jobs and UI fields untouched |
| JobsReducer.UpdateJob | src/redux/features/jobs/jobsSlice.ts:89-102 | absent id: no-op; present id: replaced at the same index (length, order kept); counts of old and new column move by one only when columnId differs |
| JobsReducer.DeleteJob | src/redux/features/jobs/jobsSlice.ts:103-113 | absent id: whole state unchanged; present id: every job with the id is removed and the first job's column counts one fewer |
| JobsReducer.ColumnIndexIgnoresCounts | src/redux/features/jobs/jobsSlice.ts:95-98 | looking a column up before or after a count change finds the same position |
| JobsReducer.JobIndexIgnoresOtherFields | src/redux/features/jobs/jobsSlice.ts:44 | the job lookup depends only on the ids |
| JobsReducer.UniqueColumnIndex | src/redux/features/jobs/jobsSlice.ts:37 | with unique ids the column found is exactly the one carrying the id |
| JobsReducer.UniqueJobIndex | src/redux/features/jobs/jobsSlice.ts:44 | with unique job ids, the job found for jobs[i].id is the one at i |
| JobsReducer.ColumnIndexFinds | src/redux/features/jobs/jobsSlice.ts:37-38 | the lookup succeeds iff some column has the id |
| JobsReducer.RemoveUniqueJob | src/redux/features/jobs/jobsSlice.ts:111 | with unique job ids, the filter removes exactly the one job and keeps the others in order |
| JobsReducer.CountInReplace | src/redux/features/jobs/jobsSlice.ts:100 | replacing one job moves one unit of count from its old column to its new one |
| JobsReducer.AddJobKeepsCounts | src/redux/features/jobs/jobsSlice.ts:33-41 | with unique column ids, every count stays equal to the number of jobs naming its column |
| JobsReducer.MoveJobKeepsCounts | src/redux/features/jobs/jobsSlice.ts:42-62 | with unique column ids, counts stay exact after a move |
| JobsReducer.UpdateJobKeepsCounts | src/redux/features/jobs/jobsSlice.ts:89-102 | with unique column ids, counts stay exact after an update |
| JobsReducer.DeleteJobKeepsCounts | src/redux/features/jobs/jobsSlice.ts:103-113 | with unique column and job ids, counts stay exact after a delete |
| JobsReducer.DeleteColumnKeepsCounts | src/redux/features/jobs/jobsSlice.ts:72-78 | the surviving columns' counts stay exact after the cascade |
| JobsReducer.ReorderColumnsKeepsCounts | src/redux/features/jobs/jobsSlice.ts:86-88 | a permutation of the columns keeps counts exact and orphans none |
| JobsReducer.AddColumnKeepsInvariant | src/redux/features/jobs/jobsSlice.ts:30-32 | a new column with a fresh id and count 0 keeps the whole invariant |
| JobsReducer.AddJobKeepsInvariant | src/redux/features/jobs/jobsSlice.ts:33-41 | a job with a fresh id on an existing column keeps the whole invariant |
| JobsReducer.MoveJobKeepsInvariant | src/redux/features/jobs/jobsSlice.ts:42-62 | a move into an existing column keeps the whole invariant |
| JobsReducer.UpdateJobKeepsInvariant | src/redux/features/jobs/jobsSlice.ts:89-102 | an update naming an existing column keeps the whole invariant |
| JobsReducer.DeleteJobKeepsInvariant | src/redux/features/jobs/jobsSlice.ts:103-113 | deleting a job keeps the whole invariant |
| JobsReducer.DeleteColumnKeepsInvariant | src/redux/features/jobs/jobsSlice.ts:72-78 | the cascade keeps the whole invariant: no job is left orphaned |
| JobsReducer.RenameColumnKeepsInvariant | src/redux/features/jobs/jobsSlice.ts:79-85 | renaming keeps the whole invariant |
| JobsReducer.AdjustCountKeepsColumns | src/redux/features/jobs/jobsSlice.ts:37-40 | a count update keeps every id, so uniqueness and existence of columns |
| JobsReducer.MoveJobIdempotent | src/redux/features/jobs/jobsSlice.ts:46 | moving a job to X twice equals moving it once |
| JobsSlice.JobsStore.constructor | src/redux/features/jobs/jobsSlice.ts:12-18 | the store starts in the initial state |
| JobsSlice.JobsStore.AdjustColumnCount | src/redux/features/jobs/jobsSlice.ts:37-40 | in-place find-and-bump reaches AdjustCount; other fields unchanged |
| JobsSlice.JobsStore.SetColumns | src/redux/features/jobs/jobsSlice.ts:24-26 | new state is SetColumns of the old |
| JobsSlice.JobsStore.SetJobs | src/redux/features/jobs/jobsSlice.ts:27-29 | new state is SetJobs of the old |
| JobsSlice.JobsStore.AddColumn | src/redux/features/jobs/jobsSlice.ts:30-32 | new state is AddColumn of the old; invariant kept for a fresh id with count 0 |
| JobsSlice.JobsStore.AddJob | src/redux/features/jobs/jobsSlice.ts:33-41 | push then find-and-bump reaches AddJob; invariant kept for a fresh id on an existing column |
| JobsSlice.JobsStore.MoveJob | src/redux/features/jobs/jobsSlice.ts:42-62 | the in-place steps reach MoveJob; invariant kept for an existing target |
| JobsSlice.JobsStore.ToggleAddJobDialog | src/redux/features/jobs/jobsSlice.ts:63-65 | new state is ToggleAddJobDialog of the old |
| JobsSlice.JobsStore.ToggleAddColumnDialog | src/redux/features/jobs/jobsSlice.ts:66-68 | new state is ToggleAddColumnDialog of the old |
| JobsSlice.JobsStore.SetSelectedColumn | src/redux/features/jobs/jobsSlice.ts:69-71 | new state is SetSelectedColumn of the old |
| JobsSlice.JobsStore.DeleteColumn | src/redux/features/jobs/jobsSlice.ts:72-78 | the two filters reach DeleteColumn; invariant kept |
| JobsSlice.JobsStore.RenameColumn | src/redux/features/jobs/jobsSlice.ts:79-85 | new state is RenameColumn of the old; invariant kept |
| JobsSlice.JobsStore.ReorderColumns | src/redux/features/jobs/jobsSlice.ts:86-88 | new state is ReorderColumns of the old |
| JobsSlice.JobsStore.UpdateJob | src/redux/features/jobs/jobsSlice.ts:89-102 | index lookup, count moves and in-place replacement reach UpdateJob; invariant kept for an existing column |
| JobsSlice.JobsStore.DeleteJob | src/redux/features/jobs/jobsSlice.ts:103-113 | find, decrement, filter reach DeleteJob; invariant kept |
| ObjectUrls.BlobUrl | src/components/file-upload.tsx:35 | every created handle starts with "blob:" |
| ObjectUrls.BlobUrlInjective | src/components/file-upload.tsx:35 | distinct allocations give distinct handles |
| ObjectUrls.UrlRegistry.Create | src/components/file-upload.tsx:35 | createObjectURL: a handle not live before joins the live set |
| ObjectUrls.UrlRegistry.Revoke | src/components/file-upload.tsx:110 | revokeObjectURL: the handle leaves the live set |
| JobBoard.RemoveAt | src/components/job-board.tsx:24 | splice(i, 1): one shorter, elements after i shift down by one |
| JobBoard.InsertAt | src/components/job-board.tsx:25 | splice(i, 0, x): x at i, elements from i shift up by one |
| JobBoard.MoveColumn | src/components/job-board.tsx:22-25 | same length; the dragged column lands at the hover index |
| JobBoard.MoveColumnPositions | src/components/job-board.tsx:22-25 | position by position, the reorder is the index map SourceIndex: the columns between the two indexes shift by one |
| JobBoard.MoveColumnKeepsOrder | src/components/job-board.tsx:24-25 | without the moved column, the order is the original order without it |
| JobBoard.MoveColumnPermutes | src/components/job-board.tsx:22-26 | the reorder is a permutation (same multiset of columns, fields unchanged) |
| JobBoard.MoveColumnInPlace | src/components/job-board.tsx:24-25 | dragIndex == hoverIndex gives the original order |
| JobBoard.MoveColumnKeepsUniqueIds | src/components/job-board.tsx:22-26 | column ids stay unique |
| JobBoard.MoveColumnKeepsInvariant | src/components/job-board.tsx:20-29 | dispatching the reorder keeps the store invariant |
| JobBoard.HandleMoveColumn | src/components/job-board.tsx:20-29 | the copy is spliced and dispatched; the store reaches ReorderColumns of the reordered copy; invariant kept |
| JobBoard.HandleMoveJob | src/components/job-board.tsx:13-18 | exactly one moveJob with the given job and target |
| JobBoard.ColumnCardsInOrder | src/components/job-board.tsx:34 | a column's cards are exactly the jobs naming it, in store order |
| JobBoard.EachJobOnOneColumn | src/components/job-board.tsx:33-34 | under the invariant each job is rendered on exactly one column, the one it names |
| JobBoard.BadgeMatchesCards | src/components/job-column.tsx:83 | with exact counts, a column's badge equals the number of cards under it |
| JobColumn.ColumnDragItem.constructor | src/components/job-column.tsx:41-44 | the shared drag item starts at the column's index |
| JobColumn.Hover | src/components/job-column.tsx:51-56 | fires iff the tracked index differs, and then the columns are `MoveColumn(cols, tracked, index)`, the board's reorder; afterwards the tracked index is the hovered one; a quiet hover changes nothing |
| JobColumn.HoverAgainIsQuiet | src/components/job-column.tsx:52 | a repeated hover over the same column fires nothing |
| JobColumn.HoverTracksDragged | src/components/job-column.tsx:51-56 | the dragged column sits at the tracked index after every hover |
| JobColumn.HoverKeepsInvariant | src/components/job-column.tsx:51-56 | a committed hover keeps the store invariant |
| JobColumn.HandleHover | src/components/job-column.tsx:51-56 | the callback fires at most one reorder, updates item.index, and the store reaches the Hover outcome |
| JobColumn.HandleDrop | src/components/job-column.tsx:32-34 | exactly one moveJob, of the dropped card's id, into this column's id |
| JobColumn.DropMovesDraggedCard | src/components/job-column.tsx:32-34 | with unique job ids, the dropped card's job is re-homed and every other job is unchanged |
| JobColumn.HandleAddJob | src/components/job-column.tsx:63-66 | selects this column, then flips showAddJobDialog |
| JobColumn.HandleRenameColumn | src/components/job-column.tsx:68-70 | renameColumn with this column's id and the new title |
| JobCard.DaysAgo | src/components/job-card.tsx:22-23 | floor of the difference in days, negative differences included |
| JobCard.MonthsAgo | src/components/job-card.tsx:29 | floor of days over 30, at least 1 |
| JobCard.FormatDistanceToNow | src/components/job-card.tsx:20-32 | buckets by milliseconds: "today", "1 day ago", "N days ago" (negatives too), "1 month ago", "N months ago" |
| JobCard.MonthsAreThirtyDays | src/components/job-card.tsx:23-29 | flooring to days then to 30-day months equals flooring to 30-day months |
| JobCard.TodayExactly | src/components/job-card.tsx:25 | "today" exactly when 0 <= difference < one day |
| JobCard.DragItem | src/components/job-card.tsx:40-43 | the drag item carries exactly this job's id |
| JobCard.HandleDeleteJob | src/components/job-card.tsx:53-57 | one deleteJob for this job's id; no handle revoked |
| JobDrawer.Accepts | src/components/job-drawer.tsx:24-32 | accepted iff company, position and columnId are non-empty |
| JobDrawer.OptionalFieldsIgnored | src/components/job-drawer.tsx:27-31 | location, salary, link and notes never affect acceptance |
| JobDrawer.DefaultColumnId | src/components/job-drawer.tsx:82 | the selected column if non-empty, else the first column's id, else "" |
| JobDrawer.DefaultColumnExists | src/components/job-drawer.tsx:82 | the default names an existing column when there is one and the selection is valid or unset |
| JobDrawer.ValuesOf | src/components/job-drawer.tsx:64-72 | the form filled from a job, unset optional fields as "" |
| JobDrawer.OnOpen | src/components/job-drawer.tsx:61-90 | closed: no change; edit/view of a job: form, todos, files from it; add: blank form on the default column; input cleared when open |
| JobDrawer.AddTodo | src/components/job-drawer.tsx:138-148 | whitespace-only input: no change; otherwise one unchecked item with the trimmed, non-empty text appended and the input cleared |
| JobDrawer.ToggleTodo | src/components/job-drawer.tsx:150-152 | only items with the id flip completed; ids, texts, order, length kept |
| JobDrawer.ToggleTwice | src/components/job-drawer.tsx:150-152 | toggling twice is the identity |
| JobDrawer.DeleteTodo | src/components/job-drawer.tsx:154-156 | an item survives iff its id differs |
| JobDrawer.DeleteTodoKeepsOrder | src/components/job-drawer.tsx:155 | the survivors keep their order |
| JobDrawer.AddPayload | src/components/job-drawer.tsx:105-111 | new id and stamp, all form values, the draft todos and files |
| JobDrawer.EditPayload | src/components/job-drawer.tsx:115-120 | keeps the stored id and createdAt, takes all form values and the draft lists |
| JobDrawer.EditUntouchedKeepsJob | src/components/job-drawer.tsx:64-74 | opening a fully filled job and saving it untouched gives back the job |
| JobDrawer.EditUntouchedFillsLocation | src/components/job-drawer.tsx:67 | an unset location comes back from an untouched edit as "" |
| JobDrawer.SubmitKeepsInvariant | src/components/job-drawer.tsx:102-124 | add with a fresh id, or edit, onto an existing column keeps the store invariant |
| JobDrawer.Submit | src/components/job-drawer.tsx:102-124 | rejected form: nothing; add: one addJob; edit with a job: one updateJob; then close |
| JobDrawer.HandleDeleteJob | src/components/job-drawer.tsx:126-136 | revokes exactly the draft's "blob:" handles, then one deleteJob for the job's id; without a job nothing happens |
| FileUpload.Record | src/components/file-upload.tsx:37-44 | a record copies name, size and type, with the given id, handle and stamp |
| FileUpload.Uploads | src/components/file-upload.tsx:32-47 | one record per incoming file, in input order, with that file's name, size, type, its id and stamp |
| FileUpload.WithUploads | src/components/file-upload.tsx:49 | old files first and unchanged, then the new records |
| FileUpload.UploadsHaveOwnUrls | src/components/file-upload.tsx:35 | the new records' handles are pairwise distinct and start with "blob:" |
| FileUpload.HandleFiles | src/components/file-upload.tsx:30-52 | the loop reaches WithUploads; each new handle was not live and now is |
| FileUpload.RemoveFile | src/components/file-upload.tsx:106-115 | removes exactly the records with the id; revokes the first one's handle, nothing when absent |
| FileUpload.RemoveKeepsOrder | src/components/file-upload.tsx:112 | with unique ids, the other records keep their order |
| FileUpload.RemoveAbsentId | src/components/file-upload.tsx:112 | removing an absent id returns the list unchanged |
| FileUpload.HandleDrop | src/components/file-upload.tsx:71-85 | disabled or no files: nothing added, no handle created; otherwise handleFiles, with the registry counter advanced by the number of files |
| FileUpload.HandleFileInputChange | src/components/file-upload.tsx:87-98 | missing or empty selection: nothing added, no handle created; otherwise handleFiles, with the registry counter advanced by the number of files |
| EditableText.CommitOf | src/components/editable-text.tsx:33-38 | save iff the text is not all whitespace and differs from value; what is saved is the trimmed text |
| EditableText.PaddedValueSaves | src/components/editable-text.tsx:34-35 | a text that is value with surrounding whitespace is still saved, as exactly value |
| EditableText.UnchangedNeverSaves | src/components/editable-text.tsx:34 | committing the unchanged value never saves |
| EditableText.Editor.constructor | src/components/editable-text.tsx:14-15 | starts not editing, text equal to value |
| EditableText.Editor.DoubleClick | src/components/editable-text.tsx:29-31 | enters editing mode |
| EditableText.Editor.Change | src/components/editable-text.tsx:60 | the text follows the input |
| EditableText.Editor.Commit | src/components/editable-text.tsx:33-39 | the shared commit of blur and Enter: a save keeps the typed text and hands over CommitOf's title; a revert resets text to value; editing ends |
| EditableText.Editor.Blur | src/components/editable-text.tsx:33-40 | saves CommitOf's title and keeps the typed text, or reverts text to value; leaves editing |
| EditableText.Editor.KeyDown | src/components/editable-text.tsx:42-54 | Enter as blur (a save keeps the typed text, a revert resets it); Escape reverts without saving and leaves editing; other keys do nothing |
| EditableText.Editor.SyncValue | src/components/editable-text.tsx:18-20 | a changed value resets the text to it |
| Text.Trim | src/components/job-drawer.tsx:139 | JavaScript trim: the result has no leading or trailing whitespace |
| Text.TrimEmptyIff | src/components/job-drawer.tsx:139 | trim gives "" iff the string is all whitespace |
| Text.TrimPadding | src/components/editable-text.tsx:35 | trimming whitespace padding around a trimmed string gives it back |
| Text.NatToString | src/components/job-card.tsx:27 | the decimal digits a template literal prints |
| Text.NatToStringInjective | src/components/job-card.tsx:27 | different numbers print differently |
| Text.NatToStringValue | src/components/job-card.tsx:27 | the printed digits, read back in decimal, denote the number, with no leading zero |
| Text.IntToString | src/components/job-card.tsx:27 | the template literal on a possibly negative day count: a leading '-' exactly for negatives |
| Text.IntToStringValue | src/components/job-card.tsx:27 | a non-negative count prints as its digits, a negative one as '-' and the digits of its magnitude |
| Text.StartsWith | src/components/job-drawer.tsx:129 | `startsWith`: true exactly when the string is the prefix followed by something |
| Seqs.Filter | src/redux/features/jobs/jobsSlice.ts:75 | `Array.filter`: an element is kept iff it is in the input and passes the callback; never longer |
| Seqs.FirstIndex | src/redux/features/jobs/jobsSlice.ts:90 | `find`/`findIndex`: the first position passing the callback, none before it passes; None iff no element passes |
| Seqs.FilterAppend | src/redux/features/jobs/jobsSlice.ts:75 | filtering keeps relative order: the filter of a concatenation is the concatenation of the filters |
| Seqs.FilterOutUniqueKey | src/redux/features/jobs/jobsSlice.ts:111 | with distinct keys, filtering out the key at i removes exactly position i, the rest in order |
| Seqs.FirstIndexUniqueKey | src/redux/features/jobs/jobsSlice.ts:44 | with distinct keys, finding the key at i returns position i |

## Left out

- `formatFileSize` (src/components/file-upload.tsx:18-24): it uses floating-point logarithms, powers and `toFixed`.
- `downloadFile` (src/components/file-upload.tsx:117-124): it only clicks a temporary DOM anchor.
- The cleanup effect at src/components/job-drawer.tsx:92-100 is left out. React runs it whenever `files` changes and on unmount, and it revokes the previous list's `blob:` handles. Those handles can still be in use, for example by a file kept after a removal, so it can release a handle early or twice. It is effect scheduling, not a transition.
- `handleDragOver`, `handleDragLeave`, the `isDragOver` highlight and `handleClick`. They are presentation only.
- The react-dnd plumbing (`collect`, `isOver`, `isDragging`, ref combining) is left out. Only the hover and drop decisions are modelled.
- The zod and react-hook-form machinery is reduced to `JobDrawer.Accepts` and the submit gate. Error messages are not modelled.
- Rendering is left out, as are the Redux store, the provider and `useSelector`/`useDispatch`.
- The add-column and delete-column dialogs (src/components/add-column-dialog.tsx, src/components/delete-column-dialog.tsx) are not modelled operations.
  - `AddColumnKeepsInvariant` relies on what the add dialog builds: a fresh id from `generateId` and `count: 0`.
  - The model does not rely on the add dialog's non-empty title. No lemma needs it.
  - The model does not rely on the delete dialog passing an existing column. `DeleteColumnKeepsInvariant` and `JobsStore.DeleteColumn` hold for any id.
- `generateId`, `new Date()`, `Date.now()` and date parsing are not part of this model. Ids and timestamps are parameters. The card's age takes the millisecond difference as a parameter, so an unparsable `createdAt` (NaN) is not modelled.
- `JobBoard.MoveColumn`: requires both indexes in bounds. The board only passes rendered indexes, so JavaScript's `splice` on out-of-range or negative indexes is not modelled.
- `Text.NatToString`: prints plain decimal digits. JavaScript switches to exponent notation at 1e21, which a day or month count never reaches.
- `Text.IsSpace`: the whitespace set is the ECMAScript WhiteSpace and LineTerminator set at a fixed Unicode version. Later additions to Unicode's space separators are not modelled.
- `ObjectUrls.UrlRegistry`: handles are numbered, not the browser's UUID-style URLs. Only "starts with blob:" and distinctness are relied on.
- `EditableText.Editor`: a blur that a browser may fire when Enter or Escape unmounts the input is not modelled. Each event is taken separately.
- `JobDrawer.DefaultColumnId`: after a column is deleted, `selectedColumn` is not cleared, so the add-mode default can name a column that no longer exists. `DefaultColumnExists` states the condition under which the default is valid. That condition is not enforced anywhere.
- The drawer's `handleKeyPress` (src/components/job-drawer.tsx:158-163) only calls `addTodo` on Enter. `JobDrawer.AddTodo` is that call.
