// The dashboard: the number of active students and the next five events of
// the calendar.

module DashboardScreen {
  import opened Types
  import opened Sorting
  import opened GroupsScreen
  import opened ArchiveScreen

  /** activeStudentsCount: how many students have the active status. */
  function ActiveCount(students: seq<Student>): nat {
    |ActiveStudents(students)|
  }

  /** The two statuses share out the students between them. */
  lemma {:induction false} StatusSplit(students: seq<Student>)
    ensures |Filter(students, IsActive)| + |Filter(students, IsArchived)| == |students|
  {
    if students != [] {
      StatusSplit(students[..|students| - 1]);
    }
  }

  /** Every student is either counted as active or listed in the archive, never both. */
  lemma ActiveCountRules(students: seq<Student>, s: Student)
    ensures ActiveCount(students) + |ArchivedStudents(students)| == |students|
    ensures s in students ==> (s in ActiveStudents(students) <==> s !in ArchivedStudents(students))
  {
    StatusSplit(students);
    FilterMembers(students, IsActive, s);
    FilterMembers(students, IsArchived, s);
  }

  /** The events of the calendar whose start lies strictly after `now`. */
  function Future(events: seq<DisplayEvent>, now: int): seq<DisplayEvent> {
    Filter(events, (e: DisplayEvent) => e.start > now)
  }

  /**
   * upcomingEvents: the future events, soonest first, cut to five.  The
   * calendar's instances all come with a parsed start, so the `isNaN` test
   * keeps each of them.
   */
  function Upcoming(events: seq<DisplayEvent>, now: int): seq<DisplayEvent> {
    TakeFirst(SortByNumber(Future(events, now), (e: DisplayEvent) => e.start), 5)
  }

  /**
   * At most five events are listed, each a calendar event that starts after
   * `now`, soonest first; and a future event that is left out has five
   * listed events starting no later than it.
   */
  lemma UpcomingRules(events: seq<DisplayEvent>, now: int, e: DisplayEvent)
    ensures |Upcoming(events, now)| <= 5
    ensures forall i :: 0 <= i < |Upcoming(events, now)| ==>
      Upcoming(events, now)[i] in events && Upcoming(events, now)[i].start > now
    ensures forall i, j :: 0 <= i < j < |Upcoming(events, now)| ==>
      Upcoming(events, now)[i].start <= Upcoming(events, now)[j].start
    ensures e in events && e.start > now && e !in Upcoming(events, now) ==>
      |Upcoming(events, now)| == 5 && forall i :: 0 <= i < 5 ==> Upcoming(events, now)[i].start <= e.start
  {
    var byStart := (e: DisplayEvent) => e.start;
    var f := Future(events, now);
    var sorted := SortByNumber(f, byStart);
    var r := Upcoming(events, now);
    SortByNumberSorted(f, byStart);
    forall i | 0 <= i < |r| ensures r[i] in events && r[i].start > now {
      assert r[i] == sorted[i];
      assert sorted[i] in multiset(f);
      FilterMembers(events, (e: DisplayEvent) => e.start > now, r[i]);
    }
    if e in events && e.start > now && e !in r {
      FilterMembers(events, (e: DisplayEvent) => e.start > now, e);
      assert e in multiset(sorted);
      var j :| 0 <= j < |sorted| && sorted[j] == e;
      if j < |r| {
        assert r[j] == e;
      }
      assert |sorted| > 5;
      forall i | 0 <= i < 5 ensures r[i].start <= e.start {
        assert r[i] == sorted[i];
      }
    }
  }
}
