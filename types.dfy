// The records of the tutoring CRM as the screens and the store see them
// once loaded.  Money is `real` (exact); stored timestamps appear in their
// parsed form (Calendar.DateValue); a nullable column is an Option.

module Types {
  import opened Base
  import opened Calendar

  type Money = real

  datatype StudentStatus = Active | Archived

  datatype Student = Student(
    id: string,
    name: string,
    birthDate: Option<string>,
    parentName: string,
    parentPhone1: string,
    balance: Money,
    status: StudentStatus,
    archivedDate: Option<string>,
    groupIds: seq<string>)

  /** What a caller supplies to create a student: everything but the id. */
  datatype StudentDraft = StudentDraft(
    name: string,
    birthDate: Option<string>,
    parentName: string,
    parentPhone1: string,
    balance: Money,
    status: StudentStatus,
    groupIds: seq<string>)

  datatype Group = Group(id: string, name: string)

  datatype SubscriptionPlan = SubscriptionPlan(
    id: string,
    name: string,
    price: Money,
    discount: Money,
    lessonCount: int,
    isDefault: bool)

  /** A purchased subscription: lessonsAttended counts the lessons already charged to it. */
  datatype StudentSubscription = StudentSubscription(
    id: string,
    studentId: string,
    planId: string,
    purchaseDate: DateValue,
    pricePaid: Money,
    lessonsTotal: int,
    lessonsAttended: int,
    assignedGroupId: Option<string>)

  /**
   * What a caller supplies to create a subscription: never the id, the purchase
   * date or the attended counter, which the store fills in.
   */
  datatype SubscriptionDraft = SubscriptionDraft(
    studentId: string,
    planId: string,
    pricePaid: Money,
    lessonsTotal: int,
    assignedGroupId: Option<string>)

  datatype TransactionType = Payment | Refund | Correction | Debit

  datatype FinancialTransaction = FinancialTransaction(
    id: string,
    studentId: string,
    date: DateValue,
    kind: TransactionType,
    amount: Money,
    description: string,
    subscriptionId: Option<string>)

  datatype AttendanceStatus = Present | Absent | Excused

  /** One journal mark; a student has at most one per date text (`YYYY-MM-DD`). */
  datatype Attendance = Attendance(
    studentId: string,
    date: string,
    status: AttendanceStatus,
    grade: Option<int>,
    subscriptionId: Option<string>)

  datatype ScheduleEvent = ScheduleEvent(
    id: string,
    title: string,
    groupId: Option<string>,
    start: DateValue,
    end: DateValue,
    isRecurring: bool)

  /**
   * A per-occurrence change of a weekly event, identified by the event id and the
   * occurrence key.  Every override is optional: newTitle and the new times are
   * None when undefined or empty; newGroupId is None when undefined and Some(None)
   * when explicitly null.
   */
  datatype ScheduleEventException = ScheduleEventException(
    originalEventId: string,
    originalStartTime: string,
    newTitle: Option<string>,
    newGroupId: Option<Option<string>>,
    newStartTime: Option<DateValue>,
    newEndTime: Option<DateValue>,
    isDeleted: bool)

  /** An event as the calendar shows it: the stored event or one generated weekly occurrence. */
  datatype DisplayEvent = DisplayEvent(
    id: string,
    title: string,
    groupId: Option<string>,
    start: int,
    end: int,
    isRecurring: bool,
    originalId: string,
    isVirtual: bool,
    occurrenceKey: string,
    exception: Option<ScheduleEventException>)

  datatype Expense = Expense(id: string, date: DateValue, description: string, amount: Money)

  datatype UserPermissions = UserPermissions(
    canViewDashboard: bool,
    canViewStudents: bool,
    canViewJournal: bool,
    canViewGroups: bool,
    canViewSubscriptions: bool,
    canViewSchedule: bool,
    canViewFinance: bool,
    canViewArchive: bool,
    canManageUsers: bool)

  datatype Role = AdminRole | TeacherRole

  datatype UserProfile = UserProfile(id: string, email: string, role: Role, permissions: UserPermissions)

  /** The screens; UnknownView stands for any value outside the declared union. */
  datatype View =
    | DashboardView | StudentsView | JournalView | GroupsView | SubscriptionsView
    | ScheduleView | FinanceView | ArchiveView | StudentFinanceView | AdminView
    | UnknownView

  /** The remaining value of a subscription: its unused lessons at the price per lesson paid. */
  function RemainingValue(s: StudentSubscription): (v: Money)
    ensures s.lessonsTotal <= 0 ==> v == 0.0
    ensures s.lessonsTotal > 0 ==>
      v * (s.lessonsTotal as real) == s.pricePaid * ((s.lessonsTotal - s.lessonsAttended) as real)
  {
    ((s.lessonsTotal - s.lessonsAttended) as real)
    * (if s.lessonsTotal > 0 then s.pricePaid / s.lessonsTotal as real else 0.0)
  }

  lemma MulNonNegative(a: real, b: real)
    requires a >= 0.0 && b >= 0.0
    ensures a * b >= 0.0
  {
  }

  /** With 0 <= attended <= total and a non-negative price, the remaining value lies in [0, price]. */
  lemma RemainingValueBounds(s: StudentSubscription)
    requires 0 <= s.lessonsAttended <= s.lessonsTotal
    requires s.pricePaid >= 0.0
    ensures 0.0 <= RemainingValue(s) <= s.pricePaid
  {
    if s.lessonsTotal > 0 {
      var n := s.lessonsTotal as real;
      var left := (s.lessonsTotal - s.lessonsAttended) as real;
      var per := s.pricePaid / n;
      assert RemainingValue(s) == left * per;
      assert per * n == s.pricePaid;
      assert 0.0 <= left <= n;
      assert per >= 0.0;
      MulNonNegative(left, per);
      MulNonNegative(n - left, per);
      assert (n - left) * per == n * per - left * per;
    }
  }

  /** `students.find(s => s.id === id)` */
  function FindStudent(students: seq<Student>, id: string): Option<Student> {
    FindBy(students, (s: Student) => s.id, id)
  }
}
