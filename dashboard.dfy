/** The derived lists the dashboard shows: the tasks due within the coming
    week, and the most recently updated notes and most recently recorded lectures. */
module Dashboard {
  import opened Seqs
  import opened ClientRecords

  const DAY_MS: int := 86400000
  /** `nextWeek` is `today` moved seven days ahead. */
  const WEEK_MS: int := 7 * DAY_MS
  const UPCOMING_LIMIT: nat := 5
  const RECENT_LIMIT: nat := 3

  /** `dueDate >= today && dueDate <= nextWeek`, both ends included. */
  predicate DueWithinWeek(t: Task, today: int)
  {
    today <= t.dueDate <= today + WEEK_MS
  }

  /** The comparator `a.dueDate - b.dueDate`: earlier due date first. */
  predicate DueFirst(a: Task, b: Task)
  {
    a.dueDate <= b.dueDate
  }

  /** The comparator `b.updatedAt - a.updatedAt`: latest update first. */
  predicate UpdatedFirst(a: NoteCard, b: NoteCard)
  {
    a.updatedAt >= b.updatedAt
  }

  /** The comparator `b.recordedAt - a.recordedAt`: latest recording first. */
  predicate RecordedFirst(a: LectureCard, b: LectureCard)
  {
    a.recordedAt >= b.recordedAt
  }

  lemma DueFirstIsPreorder()
    ensures TotalPreorder(DueFirst)
  {
  }

  lemma UpdatedFirstIsPreorder()
    ensures TotalPreorder(UpdatedFirst)
  {
  }

  lemma RecordedFirstIsPreorder()
    ensures TotalPreorder(RecordedFirst)
  {
  }

  /** The `filter` step of `upcomingTasks`. */
  function WeekWindow(tasks: seq<Task>, today: int): (r: seq<Task>)
    ensures forall t :: t in r <==> t in tasks && DueWithinWeek(t, today)
    ensures multiset(r) <= multiset(tasks)
    ensures |r| <= |tasks|
    ensures (forall t :: t in tasks ==> DueWithinWeek(t, today)) ==> r == tasks
  {
    var inWeek := (t: Task) => DueWithinWeek(t, today);
    assert (forall t :: t in tasks ==> inWeek(t)) ==> Filter(tasks, inWeek) == tasks by {
      if forall t :: t in tasks ==> inWeek(t) {
        FilterAll(tasks, inWeek);
      }
    }
    Filter(tasks, inWeek)
  }

  /** `upcomingTasks`: at most five tasks of the week's window, earliest due
      first, and never a later one in place of an earlier one. */
  function UpcomingTasks(tasks: seq<Task>, today: int): (r: seq<Task>)
    ensures |r| == Min(UPCOMING_LIMIT, |WeekWindow(tasks, today)|)
    ensures forall t :: t in r ==> DueWithinWeek(t, today)
    ensures multiset(r) <= multiset(tasks)
    ensures forall i, j :: 0 <= i < j < |r| ==> r[i].dueDate <= r[j].dueDate
    ensures forall x, y :: x in tasks && DueWithinWeek(x, today) && y in r && x.dueDate < y.dueDate ==> x in r
    ensures |r| < UPCOMING_LIMIT ==> forall t :: t in tasks && DueWithinWeek(t, today) ==> t in r
  {
    assert TotalPreorder(DueFirst) by { DueFirstIsPreorder(); }
    var window := WeekWindow(tasks, today);
    var r := TopK(window, DueFirst, UPCOMING_LIMIT);
    assert forall x, y :: x in window && y in r && x.dueDate < y.dueDate ==> x in r by {
      forall x, y | x in window && y in r && x.dueDate < y.dueDate ensures x in r {
        assert !DueFirst(y, x);
      }
    }
    r
  }

  /** `recentNotes`: at most three notes, latest update first, none left out
      for an older one; the sort works on a copy, so `notes` itself keeps its order. */
  function RecentNotes(notes: seq<NoteCard>): (r: seq<NoteCard>)
    ensures |r| == Min(RECENT_LIMIT, |notes|)
    ensures multiset(r) <= multiset(notes)
    ensures forall i, j :: 0 <= i < j < |r| ==> r[i].updatedAt >= r[j].updatedAt
    ensures forall x, y :: x in notes && y in r && x.updatedAt > y.updatedAt ==> x in r
  {
    assert TotalPreorder(UpdatedFirst) by { UpdatedFirstIsPreorder(); }
    var r := TopK(notes, UpdatedFirst, RECENT_LIMIT);
    assert forall x, y :: x in notes && y in r && x.updatedAt > y.updatedAt ==> x in r by {
      forall x, y | x in notes && y in r && x.updatedAt > y.updatedAt ensures x in r {
        assert !UpdatedFirst(y, x);
      }
    }
    r
  }

  /** `recentLectures`: at most three lectures, latest recording first, none
      left out for an older one. */
  function RecentLectures(lectures: seq<LectureCard>): (r: seq<LectureCard>)
    ensures |r| == Min(RECENT_LIMIT, |lectures|)
    ensures multiset(r) <= multiset(lectures)
    ensures forall i, j :: 0 <= i < j < |r| ==> r[i].recordedAt >= r[j].recordedAt
    ensures forall x, y :: x in lectures && y in r && x.recordedAt > y.recordedAt ==> x in r
  {
    assert TotalPreorder(RecordedFirst) by { RecordedFirstIsPreorder(); }
    var r := TopK(lectures, RecordedFirst, RECENT_LIMIT);
    assert forall x, y :: x in lectures && y in r && x.recordedAt > y.recordedAt ==> x in r by {
      forall x, y | x in lectures && y in r && x.recordedAt > y.recordedAt ensures x in r {
        assert !RecordedFirst(y, x);
      }
    }
    r
  }

  /** The window's bounds are inclusive: a task due exactly now and one due
      exactly a week from now are both upcoming. */
  lemma WindowIsInclusive(today: int, a: Task, b: Task)
    requires a.dueDate == today && b.dueDate == today + WEEK_MS
    ensures UpcomingTasks([a, b], today) == [a, b]
  {
    assert WeekWindow([a, b], today) == [a, b];
    var r := UpcomingTasks([a, b], today);
    assert |r| == 2 && a in r && b in r;
    assert a != b;
    assert r[0].dueDate <= today by {
      if r[1] == a {
        assert r[0].dueDate <= r[1].dueDate;
      }
    }
    assert r[0] in multiset([a, b]);
    assert r[0] == a && r[1] == b;
  }
}
