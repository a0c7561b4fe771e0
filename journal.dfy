// The attendance journal of a group: the tap cycle on a cell, setting a
// grade, the roster, the two remaining-balance columns, the add-student
// suggestions and the paste of several names.

module Journal {
  import opened Base
  import opened Types
  import opened Ledger
  import opened Sorting
  import opened LedgerProperties

  // ---------------------------------------------------------------------
  // The tap cycle: none -> present -> absent -> excused -> deleted.

  /** The status a tap moves a cell to; None deletes the mark. */
  function NextStatus(current: Option<AttendanceStatus>): Option<AttendanceStatus> {
    match current
    case None => Some(Present)
    case Some(Present) => Some(Absent)
    case Some(Absent) => Some(Excused)
    case Some(Excused) => None
  }

  /** What a tap asks the store to do: write a mark, or delete it. */
  datatype CycleStep = Mark(write: AttendanceWrite) | Unmark

  /**
   * handleAttendanceCycle: the payload carries the stored grade (omitted when
   * there is no stored mark) only when the next status is present, null
   * otherwise, and never a subscription link.
   */
  function CycleAction(studentId: string, date: string, record: Option<Attendance>): CycleStep {
    var current := if record.Some? then Some(record.value.status) else None;
    match NextStatus(current)
    case None => Unmark
    case Some(next) =>
      var grade := if next == Present then (if record.Some? then Put(record.value.grade) else Keep) else Put(None);
      Mark(AttendanceWrite(studentId, date, next, grade, Keep))
  }

  /** handleSetGrade: the mark becomes present with the grade (null when none is given). */
  function GradeAction(studentId: string, date: string, grade: Option<int>): AttendanceWrite {
    AttendanceWrite(studentId, date, Present, Put(grade), Keep)
  }

  /**
   * Only an excused mark is deleted by a tap; every other tap writes the next
   * status for the same student and date without a link, and keeps a grade
   * only when the next status is present.
   */
  lemma CycleRules(studentId: string, date: string, record: Option<Attendance>)
    ensures CycleAction(studentId, date, record).Unmark? <==> record.Some? && record.value.status == Excused
    ensures var a := CycleAction(studentId, date, record);
      a.Mark? ==>
        a.write.studentId == studentId && a.write.date == date && a.write.link == Keep
        && (record.None? ==> a.write.status == Present)
        && (record.Some? && record.value.status == Present ==> a.write.status == Absent)
        && (record.Some? && record.value.status == Absent ==> a.write.status == Excused)
        && (a.write.status != Present ==> a.write.grade == Put(None))
  {
  }

  /** The tables after a tap on the cell (studentId, date), given which store calls fail. */
  function TapWith(db: Db, studentId: string, date: string, groupId: string, failUpdate: bool, failWrite: bool): Db {
    match CycleAction(studentId, date, FindAttendance(db.attendance, studentId, date))
    case Mark(w) => SetAttendance(db, w, groupId, failUpdate, failWrite)
    case Unmark => DeleteAttendance(db, studentId, date, failUpdate, failWrite)
  }

  function Tap(db: Db, studentId: string, date: string, groupId: string): Db {
    TapWith(db, studentId, date, groupId, false, false)
  }

  /** handleAttendanceCycle over the store. */
  method HandleAttendanceCycle(store: Store, studentId: string, date: string, groupId: string,
                               failUpdate: bool, failWrite: bool)
    modifies store
    ensures store.State() == TapWith(old(store.State()), studentId, date, groupId, failUpdate, failWrite)
  {
    var record := FindAttendance(store.attendance, studentId, date);
    var step := CycleAction(studentId, date, record);
    match step
    case Unmark =>
      var ok := store.DeleteAttendanceRecord(studentId, date, failUpdate, failWrite);
    case Mark(w) =>
      var ok := store.SetAttendanceRecord(w, groupId, failUpdate, failWrite);
  }

  /** handleSetGrade over the store. */
  method HandleSetGrade(store: Store, studentId: string, date: string, grade: Option<int>, groupId: string,
                        failUpdate: bool, failWrite: bool)
    modifies store
    ensures store.State() == SetAttendance(old(store.State()), GradeAction(studentId, date, grade), groupId,
                                           failUpdate, failWrite)
  {
    var ok := store.SetAttendanceRecord(GradeAction(studentId, date, grade), groupId, failUpdate, failWrite);
  }

  /** Setting a grade stores a present mark carrying exactly that grade. */
  lemma SetGradeStoresPresent(db: Db, studentId: string, date: string, grade: Option<int>, groupId: string)
    ensures var after := FindAttendance(SetAttendance(db, GradeAction(studentId, date, grade), groupId, false, false).attendance,
                                        studentId, date);
      after.Some? && after.value.status == Present && after.value.grade == grade
  {
    var w := GradeAction(studentId, date, grade);
    var plan := PlanAttendance(db, w, groupId);
    assert plan.write.studentId == studentId && plan.write.date == date
      && plan.write.status == Present && plan.write.grade == Put(grade);
    assert SetAttendance(db, w, groupId, false, false).attendance == Upsert(db.attendance, plan.write);
    UpsertFind(db.attendance, plan.write);
  }

  // ---------------------------------------------------------------------
  // Four taps on an empty cell give the tables back.

  predicate NoMarkFor(rows: seq<Attendance>, studentId: string, date: string) {
    forall i :: 0 <= i < |rows| ==> !SameKey(rows[i], studentId, date)
  }

  lemma FindAttendanceAppended(rows: seq<Attendance>, x: Attendance, studentId: string, date: string)
    requires NoMarkFor(rows, studentId, date) && SameKey(x, studentId, date)
    ensures FindAttendance(rows + [x], studentId, date) == Some(x)
  {
    FindAttendanceFirst(rows + [x], studentId, date, |rows|);
  }

  lemma UpsertAppended(rows: seq<Attendance>, x: Attendance, w: AttendanceWrite)
    requires NoMarkFor(rows, w.studentId, w.date) && SameKey(x, w.studentId, w.date)
    ensures Upsert(rows + [x], w) == rows + [Merge(x, w)]
  {
    FindAttendanceAppended(rows, x, w.studentId, w.date);
  }

  lemma {:induction false} RemoveAppended(rows: seq<Attendance>, x: Attendance, studentId: string, date: string)
    requires NoMarkFor(rows, studentId, date) && SameKey(x, studentId, date)
    ensures RemoveAttendance(rows + [x], studentId, date) == rows
    decreases |rows|
  {
    if rows == [] {
      assert RemoveAttendance([x][1..], studentId, date) == [];
    } else {
      assert (rows + [x])[1..] == rows[1..] + [x];
      RemoveAppended(rows[1..], x, studentId, date);
      assert rows == [rows[0]] + rows[1..];
    }
  }

  /** Charging a subscription one lesson and giving it back restores the subscriptions. */
  lemma UndoCharge(subs: seq<StudentSubscription>, c: StudentSubscription)
    requires SubscriptionIdsUnique(subs) && c in subs
    ensures SetCounter(SetCounter(subs, c.id, c.lessonsAttended + 1), c.id, c.lessonsAttended) == subs
  {
    var back := SetCounter(SetCounter(subs, c.id, c.lessonsAttended + 1), c.id, c.lessonsAttended);
    forall i | 0 <= i < |subs| ensures back[i] == subs[i] {
      if subs[i].id == c.id {
        SameIdSameRow(subs, c, i);
      }
    }
  }

  /** First tap on an empty cell: a present mark, linked to the chosen subscription, which is charged. */
  lemma TapOnEmpty(db: Db, studentId: string, date: string, groupId: string)
    requires NoMarkFor(db.attendance, studentId, date)
    ensures var c := ChooseSubscription(db, studentId, groupId);
      Tap(db, studentId, date, groupId)
        == if c.Some?
           then db.(subscriptions := SetCounter(db.subscriptions, c.value.id, c.value.lessonsAttended + 1),
                    attendance := db.attendance + [Attendance(studentId, date, Present, None, Some(c.value.id))])
           else db.(attendance := db.attendance + [Attendance(studentId, date, Present, None, None)])
  {
    var w := AttendanceWrite(studentId, date, Present, Keep, Keep);
    assert FindAttendance(db.attendance, studentId, date).None?;
    assert Tap(db, studentId, date, groupId) == SetAttendance(db, w, groupId, false, false);
    var c := ChooseSubscription(db, studentId, groupId);
    var plan := PlanAttendance(db, w, groupId);
    assert plan.charge == c;
    assert plan.write == if c.Some? then w.(link := Put(Some(c.value.id))) else w;
    assert Upsert(db.attendance, plan.write) == db.attendance + [NewRow(plan.write)];
    if c.Some? {
      assert NewRow(plan.write) == Attendance(studentId, date, Present, None, Some(c.value.id));
      var charged := db.(subscriptions := SetCounter(db.subscriptions, c.value.id, c.value.lessonsAttended + 1));
      assert SetAttendance(db, w, groupId, false, false) == ApplyPlan(db, plan, false, false);
      assert plan.charge.value == c.value;
      var after := ApplyPlan(db, plan, false, false);
      assert after.subscriptions == SetCounter(db.subscriptions, c.value.id, c.value.lessonsAttended + 1);
      assert after.attendance == Upsert(db.attendance, plan.write);
      assert after.students == db.students && after.groups == db.groups;
      assert after.transactions == db.transactions && after.plans == db.plans;
      assert after == charged.(attendance := Upsert(charged.attendance, plan.write));
      assert charged.attendance == db.attendance;
      assert SetAttendance(db, w, groupId, false, false) == charged.(attendance := db.attendance + [NewRow(plan.write)]);
    } else {
      assert NewRow(plan.write) == Attendance(studentId, date, Present, None, None);
      assert SetAttendance(db, w, groupId, false, false) == db.(attendance := db.attendance + [NewRow(plan.write)]);
    }
  }

  /** A tap on the present or absent mark last in the table moves it on, keeping its link, and charges nothing. */
  lemma TapOnMarked(db: Db, rows: seq<Attendance>, r: Attendance, groupId: string)
    requires db.attendance == rows + [r] && NoMarkFor(rows, r.studentId, r.date)
    requires r.status == Present || r.status == Absent
    requires Truthy(r.subscriptionId) || ChooseSubscription(db, r.studentId, groupId).None?
    ensures Tap(db, r.studentId, r.date, groupId)
      == db.(attendance := rows + [r.(status := if r.status == Present then Absent else Excused, grade := None)])
  {
    FindAttendanceAppended(rows, r, r.studentId, r.date);
    var w := CycleAction(r.studentId, r.date, Some(r)).write;
    var plan := PlanAttendance(db, w, groupId);
    UpsertAppended(rows, r, plan.write);
  }

  /** A tap on the excused mark last in the table deletes it and gives its lesson back. */
  lemma TapOnExcused(db: Db, rows: seq<Attendance>, r: Attendance, groupId: string)
    requires db.attendance == rows + [r] && NoMarkFor(rows, r.studentId, r.date)
    requires r.status == Excused
    ensures var sub := LinkedSubscription(db, r.studentId, r.date);
      Tap(db, r.studentId, r.date, groupId)
        == if sub.Some?
           then db.(subscriptions := SetCounter(db.subscriptions, sub.value.id, Max0(sub.value.lessonsAttended - 1)),
                    attendance := rows)
           else db.(attendance := rows)
  {
    FindAttendanceAppended(rows, r, r.studentId, r.date);
    RemoveAppended(rows, r, r.studentId, r.date);
  }

  lemma ChosenIsStored(db: Db, studentId: string, groupId: string)
    ensures ChooseSubscription(db, studentId, groupId).Some? ==>
      ChooseSubscription(db, studentId, groupId).value in db.subscriptions
  {
    ChooseSubscriptionRules(db, studentId, groupId);
  }

  /** The subscriptions after the first tap charges the chosen one, if any. */
  function ChargedBy(subs: seq<StudentSubscription>, c: Option<StudentSubscription>): seq<StudentSubscription> {
    if c.Some? then SetCounter(subs, c.value.id, c.value.lessonsAttended + 1) else subs
  }

  function LinkTo(c: Option<StudentSubscription>): Option<string> {
    if c.Some? then Some(c.value.id) else None
  }

  /** The first three taps on an empty cell leave one excused mark, linked to the subscription they charged. */
  lemma ThreeTaps(db: Db, studentId: string, date: string, groupId: string)
    requires NoMarkFor(db.attendance, studentId, date)
    requires forall i :: 0 <= i < |db.subscriptions| ==> db.subscriptions[i].id != ""
    ensures var c := ChooseSubscription(db, studentId, groupId);
      Tap(Tap(Tap(db, studentId, date, groupId), studentId, date, groupId), studentId, date, groupId)
        == db.(subscriptions := ChargedBy(db.subscriptions, c),
               attendance := db.attendance + [Attendance(studentId, date, Excused, None, LinkTo(c))])
  {
    var rows := db.attendance;
    var c := ChooseSubscription(db, studentId, groupId);
    ChooseSubscriptionRules(db, studentId, groupId);
    var subs1 := ChargedBy(db.subscriptions, c);
    var r1 := Attendance(studentId, date, Present, None, LinkTo(c));
    var db1 := Tap(db, studentId, date, groupId);
    TapOnEmpty(db, studentId, date, groupId);
    assert db1 == db.(subscriptions := subs1, attendance := rows + [r1]);
    assert Truthy(LinkTo(c)) || ChooseSubscription(db1, studentId, groupId).None?;

    var r2 := r1.(status := Absent, grade := None);
    var db2 := Tap(db1, studentId, date, groupId);
    TapOnMarked(db1, rows, r1, groupId);
    assert db2 == db.(subscriptions := subs1, attendance := rows + [r2]);
    assert Truthy(LinkTo(c)) || ChooseSubscription(db2, studentId, groupId).None?;

    TapOnMarked(db2, rows, r2, groupId);
  }

  /** The fourth tap deletes that excused mark and gives back the lesson the first tap charged. */
  lemma LastTap(db: Db, studentId: string, date: string, groupId: string)
    requires Valid(db)
    requires NoMarkFor(db.attendance, studentId, date)
    requires forall i :: 0 <= i < |db.subscriptions| ==> db.subscriptions[i].id != ""
    ensures var c := ChooseSubscription(db, studentId, groupId);
      Tap(db.(subscriptions := ChargedBy(db.subscriptions, c),
              attendance := db.attendance + [Attendance(studentId, date, Excused, None, LinkTo(c))]),
          studentId, date, groupId) == db
  {
    var c := ChooseSubscription(db, studentId, groupId);
    if c.Some? {
      ChosenIsStored(db, studentId, groupId);
      LastTapCharged(db, studentId, date, groupId, c.value);
      assert c == Some(c.value);
    } else {
      LastTapUncharged(db, studentId, date, groupId);
    }
  }

  lemma LastTapUncharged(db: Db, studentId: string, date: string, groupId: string)
    requires NoMarkFor(db.attendance, studentId, date)
    ensures Tap(db.(subscriptions := ChargedBy(db.subscriptions, None),
                    attendance := db.attendance + [Attendance(studentId, date, Excused, None, LinkTo(None))]),
                studentId, date, groupId) == db
  {
    var r3 := Attendance(studentId, date, Excused, None, None);
    var db3 := db.(attendance := db.attendance + [r3]);
    FindAttendanceAppended(db.attendance, r3, studentId, date);
    assert LinkedSubscription(db3, studentId, date) == None;
    TapOnExcused(db3, db.attendance, r3, groupId);
  }

  lemma LastTapCharged(db: Db, studentId: string, date: string, groupId: string, c: StudentSubscription)
    requires Valid(db) && c in db.subscriptions
    requires forall i :: 0 <= i < |db.subscriptions| ==> db.subscriptions[i].id != ""
    requires NoMarkFor(db.attendance, studentId, date)
    ensures Tap(db.(subscriptions := ChargedBy(db.subscriptions, Some(c)),
                    attendance := db.attendance + [Attendance(studentId, date, Excused, None, LinkTo(Some(c)))]),
                studentId, date, groupId) == db
  {
    var subs1 := SetCounter(db.subscriptions, c.id, c.lessonsAttended + 1);
    var r3 := Attendance(studentId, date, Excused, None, Some(c.id));
    var db3 := db.(subscriptions := subs1, attendance := db.attendance + [r3]);
    assert ChargedBy(db.subscriptions, Some(c)) == subs1 && LinkTo(Some(c)) == Some(c.id);
    ChargedMarkLinked(db, studentId, date, c);
    assert Tap(db3, studentId, date, groupId)
      == db3.(subscriptions := SetCounter(subs1, c.id, c.lessonsAttended), attendance := db.attendance) by {
      TapOnExcused(db3, db.attendance, r3, groupId);
      assert Max0(c.lessonsAttended + 1 - 1) == c.lessonsAttended;
    }
    UndoCharge(db.subscriptions, c);
  }

  /** The excused mark left by three taps is linked to the charged subscription, whose counter was not negative. */
  lemma ChargedMarkLinked(db: Db, studentId: string, date: string, c: StudentSubscription)
    requires Valid(db) && c in db.subscriptions
    requires forall i :: 0 <= i < |db.subscriptions| ==> db.subscriptions[i].id != ""
    requires NoMarkFor(db.attendance, studentId, date)
    ensures c.lessonsAttended >= 0
    ensures LinkedSubscription(db.(subscriptions := SetCounter(db.subscriptions, c.id, c.lessonsAttended + 1),
                                   attendance := db.attendance + [Attendance(studentId, date, Excused, None, Some(c.id))]),
                               studentId, date)
            == Some(c.(lessonsAttended := c.lessonsAttended + 1))
  {
    var subs1 := SetCounter(db.subscriptions, c.id, c.lessonsAttended + 1);
    var r3 := Attendance(studentId, date, Excused, None, Some(c.id));
    var k :| 0 <= k < |db.subscriptions| && db.subscriptions[k] == c;
    assert CounterInRange(db.subscriptions[k]) && c.id != "";
    SetCounterKeepsIdsUnique(db.subscriptions, c.id, c.lessonsAttended + 1);
    FindSubscriptionAt(subs1, k);
    FindAttendanceAppended(db.attendance, r3, studentId, date);
  }

  /**
   * Four taps on an empty cell (present, absent, excused, deleted) leave the
   * tables as they were: the lesson charged by the first tap is given back by
   * the last one.  Subscription ids are non-empty, as the store generates them.
   */
  lemma FourTapsRestore(db: Db, studentId: string, date: string, groupId: string)
    requires Valid(db)
    requires NoMarkFor(db.attendance, studentId, date)
    requires forall i :: 0 <= i < |db.subscriptions| ==> db.subscriptions[i].id != ""
    ensures Tap(Tap(Tap(Tap(db, studentId, date, groupId), studentId, date, groupId), studentId, date, groupId),
                studentId, date, groupId) == db
  {
    ThreeTaps(db, studentId, date, groupId);
    LastTap(db, studentId, date, groupId);
  }

  // ---------------------------------------------------------------------
  // The roster.

  function InGroup(s: Student, groupId: string): bool {
    s.status == Active && groupId in s.groupIds
  }

  /** studentsInGroup: nobody without a selected group, else the group's active students by name. */
  function Roster(students: seq<Student>, selected: Option<string>): seq<Student> {
    if !Truthy(selected) then []
    else SortByText(Filter(students, (s: Student) => InGroup(s, selected.value)), (s: Student) => s.name)
  }

  lemma RosterRules(students: seq<Student>, selected: Option<string>)
    ensures !Truthy(selected) ==> Roster(students, selected) == []
    ensures Truthy(selected) ==>
      forall s :: s in Roster(students, selected) <==> s in students && InGroup(s, selected.value)
    ensures var r := Roster(students, selected);
      forall i, j :: 0 <= i < j < |r| ==> TextLe(r[i].name, r[j].name)
  {
    if Truthy(selected) {
      var f := Filter(students, (s: Student) => InGroup(s, selected.value));
      forall s ensures s in Roster(students, selected) <==> s in f {
        assert s in Roster(students, selected) <==> s in multiset(Roster(students, selected));
        assert s in f <==> s in multiset(f);
      }
      SortByTextSorted(f, (s: Student) => s.name);
    }
  }

  // ---------------------------------------------------------------------
  // The remaining-lessons and remaining-money columns.

  /** The student's subscriptions with lessons left. */
  function ActiveSubscriptions(subs: seq<StudentSubscription>, studentId: string): seq<StudentSubscription> {
    Filter(subs, (s: StudentSubscription) => s.studentId == studentId && s.lessonsAttended < s.lessonsTotal)
  }

  /** Present or absent marks of the student not linked to any subscription. */
  function DebtLessons(rows: seq<Attendance>, studentId: string): nat {
    |Filter(rows, (a: Attendance) => a.studentId == studentId && !Truthy(a.subscriptionId)
                                   && (a.status == Present || a.status == Absent))|
  }

  function SumTotal(subs: seq<StudentSubscription>): int {
    if subs == [] then 0 else SumTotal(subs[..|subs| - 1]) + subs[|subs| - 1].lessonsTotal
  }

  function SumAttended(subs: seq<StudentSubscription>): int {
    if subs == [] then 0 else SumAttended(subs[..|subs| - 1]) + subs[|subs| - 1].lessonsAttended
  }

  function SumValue(subs: seq<StudentSubscription>): Money {
    if subs == [] then 0.0 else SumValue(subs[..|subs| - 1]) + RemainingValue(subs[|subs| - 1])
  }

  /** The lessons left over the given subscriptions, one subscription at a time. */
  function SumLeft(subs: seq<StudentSubscription>): int {
    if subs == [] then 0 else SumLeft(subs[..|subs| - 1]) + (subs[|subs| - 1].lessonsTotal - subs[|subs| - 1].lessonsAttended)
  }

  datatype Columns = Columns(lessons: int, money: Money)

  /** The two columns of a roster row. */
  function ColumnsOf(student: Student, subs: seq<StudentSubscription>, rows: seq<Attendance>): Columns {
    var active := ActiveSubscriptions(subs, student.id);
    Columns(SumTotal(active) - SumAttended(active) - DebtLessons(rows, student.id), SumValue(active) + student.balance)
  }

  /** The columns of one student, accumulated over the active subscriptions as the screen does. */
  method StudentColumns(student: Student, subs: seq<StudentSubscription>, rows: seq<Attendance>) returns (c: Columns)
    ensures c == ColumnsOf(student, subs, rows)
  {
    var active := ActiveSubscriptions(subs, student.id);
    var totalLessons := 0;
    var attendedLessons := 0;
    var remainingValue := 0.0;
    var k := 0;
    while k < |active|
      invariant 0 <= k <= |active|
      invariant totalLessons == SumTotal(active[..k])
      invariant attendedLessons == SumAttended(active[..k])
      invariant remainingValue == SumValue(active[..k])
    {
      var sub := active[k];
      assert active[..k + 1][..k] == active[..k] && active[..k + 1][k] == sub;
      totalLessons := totalLessons + sub.lessonsTotal;
      attendedLessons := attendedLessons + sub.lessonsAttended;
      var lessonPrice := if sub.lessonsTotal > 0 then sub.pricePaid / sub.lessonsTotal as real else 0.0;
      assert (sub.lessonsTotal - sub.lessonsAttended) as real * lessonPrice == RemainingValue(sub);
      remainingValue := remainingValue + (sub.lessonsTotal - sub.lessonsAttended) as real * lessonPrice;
      assert remainingValue == SumValue(active[..k + 1]);
      k := k + 1;
    }
    assert active[..k] == active;
    var debt := DebtLessons(rows, student.id);
    c := Columns(totalLessons - attendedLessons - debt, remainingValue + student.balance);
  }

  lemma {:induction false} SumLeftSplit(subs: seq<StudentSubscription>)
    ensures SumTotal(subs) - SumAttended(subs) == SumLeft(subs)
    decreases |subs|
  {
    if subs != [] {
      SumLeftSplit(subs[..|subs| - 1]);
    }
  }

  lemma {:induction false} SumLeftAtLeastCount(subs: seq<StudentSubscription>)
    requires forall i :: 0 <= i < |subs| ==> subs[i].lessonsAttended < subs[i].lessonsTotal
    ensures SumLeft(subs) >= |subs|
    decreases |subs|
  {
    if subs != [] {
      SumLeftAtLeastCount(subs[..|subs| - 1]);
    }
  }

  lemma {:induction false} SumValueNonNegative(subs: seq<StudentSubscription>)
    requires forall i :: 0 <= i < |subs| ==>
      0 <= subs[i].lessonsAttended <= subs[i].lessonsTotal && subs[i].pricePaid >= 0.0
    ensures SumValue(subs) >= 0.0
    decreases |subs|
  {
    if subs != [] {
      SumValueNonNegative(subs[..|subs| - 1]);
      RemainingValueBounds(subs[|subs| - 1]);
    }
  }

  /**
   * The lessons column is the lessons left on the active subscriptions (at
   * least one per active subscription) less the unlinked present and absent
   * marks; with non-negative counters and prices the money column is at least
   * the stored balance.
   */
  lemma ColumnsMeaning(student: Student, subs: seq<StudentSubscription>, rows: seq<Attendance>)
    ensures var active := ActiveSubscriptions(subs, student.id);
      ColumnsOf(student, subs, rows).lessons == SumLeft(active) - DebtLessons(rows, student.id)
      && SumLeft(active) >= |active|
    ensures (forall i :: 0 <= i < |subs| ==> subs[i].lessonsAttended >= 0 && subs[i].pricePaid >= 0.0)
      ==> ColumnsOf(student, subs, rows).money >= student.balance
  {
    var active := ActiveSubscriptions(subs, student.id);
    SumLeftSplit(active);
    SumLeftAtLeastCount(active);
    if forall i :: 0 <= i < |subs| ==> subs[i].lessonsAttended >= 0 && subs[i].pricePaid >= 0.0 {
      SumValueNonNegative(active);
    }
  }

  /** The columns of the given roster, keyed by student id, filled in roster order. */
  function FinancialsOf(roster: seq<Student>, subs: seq<StudentSubscription>, rows: seq<Attendance>): map<string, Columns> {
    if roster == [] then map[]
    else FinancialsOf(roster[..|roster| - 1], subs, rows)[roster[|roster| - 1].id := ColumnsOf(roster[|roster| - 1], subs, rows)]
  }

  /** studentFinancials: the columns of every roster student, keyed by id. */
  method StudentFinancials(roster: seq<Student>, subs: seq<StudentSubscription>, rows: seq<Attendance>)
    returns (m: map<string, Columns>)
    ensures m == FinancialsOf(roster, subs, rows)
  {
    m := map[];
    var k := 0;
    while k < |roster|
      invariant 0 <= k <= |roster|
      invariant m == FinancialsOf(roster[..k], subs, rows)
    {
      assert roster[..k + 1][..k] == roster[..k];
      var c := StudentColumns(roster[k], subs, rows);
      m := m[roster[k].id := c];
      k := k + 1;
    }
    assert roster[..k] == roster;
  }

  /** Every roster student has a row in the map and nothing else does. */
  lemma {:induction false} FinancialsKeys(roster: seq<Student>, subs: seq<StudentSubscription>, rows: seq<Attendance>)
    ensures forall id :: id in FinancialsOf(roster, subs, rows) <==> exists i :: 0 <= i < |roster| && roster[i].id == id
    decreases |roster|
  {
    if roster != [] {
      var n := |roster| - 1;
      var prefix := roster[..n];
      FinancialsKeys(prefix, subs, rows);
      forall id ensures id in FinancialsOf(roster, subs, rows) <==> exists i :: 0 <= i < |roster| && roster[i].id == id {
        if id in FinancialsOf(prefix, subs, rows) {
          var i :| 0 <= i < n && prefix[i].id == id;
          assert roster[i].id == id;
        }
        if exists i :: 0 <= i < |roster| && roster[i].id == id {
          var i :| 0 <= i < |roster| && roster[i].id == id;
          if i < n {
            assert prefix[i].id == id;
          }
        }
      }
    }
  }

  /** A student whose id does not come again later in the roster gets their own columns. */
  lemma {:induction false} FinancialsLastWins(roster: seq<Student>, subs: seq<StudentSubscription>, rows: seq<Attendance>, i: nat)
    requires i < |roster|
    requires forall j :: i < j < |roster| ==> roster[j].id != roster[i].id
    ensures roster[i].id in FinancialsOf(roster, subs, rows)
    ensures FinancialsOf(roster, subs, rows)[roster[i].id] == ColumnsOf(roster[i], subs, rows)
    decreases |roster|
  {
    var n := |roster| - 1;
    if i < n {
      var prefix := roster[..n];
      assert roster[n].id != roster[i].id;
      forall j | i < j < n ensures prefix[j].id != prefix[i].id {
        assert roster[j].id != roster[i].id;
      }
      FinancialsLastWins(prefix, subs, rows, i);
    }
  }

  // ---------------------------------------------------------------------
  // Adding students to the group.

  /** availableStudentsToAdd: up to ten active students outside the group whose name contains the query. */
  function Suggestions(query: string, students: seq<Student>, selected: Option<string>): seq<Student> {
    if Trim(query) == [] || !Truthy(selected) then []
    else TakeFirst(Filter(students, (s: Student) => Candidate(s, query, selected.value)), 10)
  }

  predicate Candidate(s: Student, query: string, groupId: string) {
    s.status == Active && groupId !in s.groupIds && ContainsFolded(s.name, query)
  }

  lemma SuggestionRules(query: string, students: seq<Student>, selected: Option<string>)
    ensures var r := Suggestions(query, students, selected);
      |r| <= 10
      && (AllSpace(query) || !Truthy(selected) ==> r == [])
      && (forall i :: 0 <= i < |r| ==> r[i] in students && Candidate(r[i], query, selected.value))
    ensures !AllSpace(query) && Truthy(selected) ==>
      var all := Filter(students, (s: Student) => Candidate(s, query, selected.value));
      |all| <= 10 ==>
        forall s :: s in students && Candidate(s, query, selected.value) ==> s in Suggestions(query, students, selected)
    ensures !AllSpace(query) && Truthy(selected) ==>
      var all := Filter(students, (s: Student) => Candidate(s, query, selected.value));
      var r := Suggestions(query, students, selected);
      r == all[..|r|] && |r| == (if |all| < 10 then |all| else 10)
  {
    TrimEmpty(query);
  }

  /** handleAddExistingStudent: the group ids written, or None when no group is selected. */
  function AddExisting(student: Student, selected: Option<string>): Option<seq<string>> {
    if !Truthy(selected) then None else Some(student.groupIds + [selected.value])
  }

  predicate NoDuplicates(ids: seq<string>) {
    forall i, j :: 0 <= i < j < |ids| ==> ids[i] != ids[j]
  }

  /** A suggested student is added to the group once: the written ids keep the old ones and gain the group. */
  lemma AddSuggestedKeepsIdsDistinct(query: string, students: seq<Student>, selected: Option<string>, s: Student)
    requires s in Suggestions(query, students, selected) && NoDuplicates(s.groupIds)
    ensures var ids := AddExisting(s, selected);
      ids.Some? && ids.value[..|s.groupIds|] == s.groupIds && selected.value in ids.value && NoDuplicates(ids.value)
  {
    SuggestionRules(query, students, selected);
    var ids := s.groupIds + [selected.value];
    assert ids[..|s.groupIds|] == s.groupIds;
    assert ids[|s.groupIds|] == selected.value;
  }

  // ---------------------------------------------------------------------
  // Pasting several names.

  /** Drops one trailing carriage return. */
  function DropCarriageReturn(s: string): string {
    if s != [] && s[|s| - 1] == '\r' then s[..|s| - 1] else s
  }

  /** `split(/\r?\n/)`: every line feed cuts, and a carriage return right before it goes too. */
  function SplitLines(text: string): (r: seq<string>)
    ensures |r| >= 1
  {
    var parts := SplitOn(text, '\n');
    seq(|parts|, i requires 0 <= i < |parts| => if i < |parts| - 1 then DropCarriageReturn(parts[i]) else parts[i])
  }

  /** The pasted names: the lines, trimmed, without the empty ones. */
  function PastedNames(text: string): seq<string> {
    var lines := SplitLines(text);
    Filter(seq(|lines|, i requires 0 <= i < |lines| => Trim(lines[i])), (n: string) => n != [])
  }

  /** A paste is a bulk add only when it yields more than one name. */
  predicate IsBulkPaste(text: string) {
    |PastedNames(text)| > 1
  }

  predicate IsName(n: string) {
    n != [] && !IsSpace(n[0]) && !IsSpace(n[|n| - 1]) && '\n' !in n
  }

  lemma PastedNamesAreNames(text: string)
    ensures forall i :: 0 <= i < |PastedNames(text)| ==> IsName(PastedNames(text)[i])
  {
    var lines := SplitLines(text);
    var parts := SplitOn(text, '\n');
    forall i | 0 <= i < |lines| ensures '\n' !in lines[i] {
      assert '\n' !in parts[i];
      if i < |parts| - 1 && parts[i] != [] && parts[i][|parts[i]| - 1] == '\r' {
        assert lines[i] == parts[i][..|parts[i]| - 1];
        assert forall c :: c in lines[i] ==> c in parts[i];
      }
    }
    var trimmed := seq(|lines|, i requires 0 <= i < |lines| => Trim(lines[i]));
    forall i | 0 <= i < |lines| ensures '\n' !in trimmed[i] {
      TrimInside(lines[i]);
    }
  }

  lemma TrimInside(s: string)
    ensures forall c :: c in Trim(s) ==> c in s
  {
    var t := TrimStart(s);
    forall c | c in Trim(s) ensures c in s {
      var k :| 0 <= k < |Trim(s)| && Trim(s)[k] == c;
      assert Trim(s)[k] == t[k];
      assert t[k] == s[|s| - |t| + k];
    }
  }

  /** Names pasted one per line come back as the same names. */
  lemma {:induction false} PasteRoundTrip(names: seq<string>)
    requires |names| >= 1 && forall i :: 0 <= i < |names| ==> IsName(names[i])
    ensures PastedNames(Join(names, '\n')) == names
  {
    var text := Join(names, '\n');
    SplitOnJoin(names, '\n');
    var lines := SplitLines(text);
    assert lines == names by {
      forall i | 0 <= i < |names| ensures lines[i] == names[i] {
        assert '\r' != names[i][|names[i]| - 1];
      }
    }
    var trimmed := seq(|lines|, i requires 0 <= i < |lines| => Trim(lines[i]));
    assert trimmed == names by {
      forall i | 0 <= i < |names| ensures trimmed[i] == names[i] {
        TrimOfTrimmed(names[i]);
      }
    }
    FilterAll(names, (n: string) => n != []);
  }

  lemma {:induction false} FilterAll<T>(s: seq<T>, keep: T -> bool)
    requires forall i :: 0 <= i < |s| ==> keep(s[i])
    ensures Filter(s, keep) == s
    decreases |s|
  {
    if s != [] {
      FilterAll(s[..|s| - 1], keep);
    }
  }

  /** handleAddNewStudents: one new active student per name, in the selected group, with a zero balance. */
  function NewStudents(names: seq<string>, selected: Option<string>): seq<StudentDraft> {
    if names == [] || !Truthy(selected) then []
    else seq(|names|, i requires 0 <= i < |names| =>
               StudentDraft(names[i], None, "Не указано", "Не указано", 0.0, Active, [selected.value]))
  }

  lemma NewStudentsRules(names: seq<string>, selected: Option<string>)
    ensures var r := NewStudents(names, selected);
      (Truthy(selected) ==> |r| == |names|)
      && (!Truthy(selected) ==> r == [])
      && forall i :: 0 <= i < |r| ==>
           r[i].name == names[i] && r[i].balance == 0.0 && r[i].status == Active && r[i].groupIds == [selected.value]
  {
  }
}
