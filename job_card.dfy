/**
 * The job card of src/components/job-card.tsx: the relative age printed on each card,
 * the drag item the card hands to the board, and the card menu's delete. The age is
 * computed from the millisecond difference between now and the job's `createdAt`, which
 * the caller supplies (the clock and date parsing are not part of this model).
 */
module JobCard {
  import opened Text
  import opened Types
  import R = JobsReducer
  import S = JobsSlice
  import ObjectUrls

  /** `1000 * 60 * 60 * 24`. */
  const MsPerDay: nat := 86_400_000

  /**
   * Whole days, rounded down as `Math.floor` does. Dafny's `/` with a positive divisor
   * rounds towards negative infinity too, so a negative difference gives a negative count.
   */
  function DaysAgo(diffMs: int): (days: int)
    ensures days * MsPerDay <= diffMs < (days + 1) * MsPerDay
  {
    diffMs / MsPerDay
  }

  /** Whole 30-day months in a count of days that is at least 30. */
  function MonthsAgo(days: int): (months: int)
    requires days >= 30
    ensures months >= 1 && months * 30 <= days < (months + 1) * 30
  {
    days / 30
  }

  /** `formatDistanceToNow`, on the difference in milliseconds. */
  function FormatDistanceToNow(diffMs: int): (r: string)
    ensures 0 <= diffMs < MsPerDay ==> r == "today"
    ensures MsPerDay <= diffMs < 2 * MsPerDay ==> r == "1 day ago"
    ensures 2 * MsPerDay <= diffMs < 30 * MsPerDay ==> r == NatToString(diffMs / MsPerDay) + " days ago"
    ensures diffMs < 0 ==> r == "-" + NatToString(-(diffMs / MsPerDay)) + " days ago"
    ensures 30 * MsPerDay <= diffMs < 60 * MsPerDay ==> r == "1 month ago"
    ensures 60 * MsPerDay <= diffMs ==> r == NatToString(diffMs / (30 * MsPerDay)) + " months ago"
  {
    var days := DaysAgo(diffMs);
    if days == 0 then "today"
    else if days == 1 then "1 day ago"
    else if days < 30 then IntToString(days) + " days ago"
    else
      var months := MonthsAgo(days);
      MonthsAreThirtyDays(diffMs);
      if months == 1 then "1 month ago"
      else IntToString(months) + " months ago"
  }

  /** Rounding down to days and then to 30-day months is rounding down to 30-day months. */
  lemma MonthsAreThirtyDays(diffMs: int)
    requires diffMs >= 30 * MsPerDay
    ensures diffMs / MsPerDay >= 30
    ensures (diffMs / MsPerDay) / 30 == diffMs / (30 * MsPerDay)
  {
    var days := diffMs / MsPerDay;
    var months := days / 30;
    assert days * MsPerDay <= diffMs < (days + 1) * MsPerDay;
    assert months * 30 <= days < (months + 1) * 30;
    assert months * (30 * MsPerDay) <= diffMs by {
      assert months * (30 * MsPerDay) == (months * 30) * MsPerDay;
      assert (months * 30) * MsPerDay <= days * MsPerDay;
    }
    assert diffMs < (months + 1) * (30 * MsPerDay) by {
      assert (days + 1) * MsPerDay <= ((months + 1) * 30) * MsPerDay;
      assert ((months + 1) * 30) * MsPerDay == (months + 1) * (30 * MsPerDay);
    }
  }

  /** A card reads "today" exactly when less than one day, and not less than none, has passed. */
  lemma TodayExactly(diffMs: int)
    ensures FormatDistanceToNow(diffMs) == "today" <==> 0 <= diffMs < MsPerDay
  {
    var r := FormatDistanceToNow(diffMs);
    if !(0 <= diffMs < MsPerDay) {
      assert |r| > 5 by {
        if diffMs < 0 || 2 * MsPerDay <= diffMs < 30 * MsPerDay || 60 * MsPerDay <= diffMs {
          assert |r| >= 10;
        }
      }
    }
  }

  /** The drag item a card hands to the board: this job's id and nothing else. */
  datatype JobDragItem = JobDragItem(id: string)

  function DragItem(job: Job): (item: JobDragItem)
    ensures item.id == job.id
  {
    JobDragItem(job.id)
  }

  /**
   * The card menu's delete: one `deleteJob` for this job's id. Unlike the drawer's
   * delete it revokes none of the job's file handles.
   */
  method HandleDeleteJob(store: S.JobsStore, urls: ObjectUrls.UrlRegistry, job: Job)
    modifies store
    ensures store.State() == R.DeleteJob(old(store.State()), job.id)
    ensures urls.live == old(urls.live)
  {
    store.DeleteJob(job.id);
  }
}
