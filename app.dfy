// The application shell: which screen is drawn for the chosen view and the
// user's permissions, how the journal and schedule periods move, and which
// group the journal opens on.

module AppShell {
  import opened Base
  import opened Calendar
  import opened Types
  import opened Sorting
  import opened GroupsScreen
  import opened ScheduleScreen

  // ---------------------------------------------------------------------
  // renderView.

  datatype Screen = LoadingPermissions | NoAccess | Show(view: View)

  /** The flag a view needs; the dashboard, a student's finance page and an unknown view need none. */
  function Allowed(p: UserPermissions, v: View): bool {
    match v
    case StudentsView => p.canViewStudents
    case JournalView => p.canViewJournal
    case GroupsView => p.canViewGroups
    case SubscriptionsView => p.canViewSubscriptions
    case ScheduleView => p.canViewSchedule
    case FinanceView => p.canViewFinance
    case ArchiveView => p.canViewArchive
    case AdminView => p.canManageUsers
    case DashboardView => true
    case StudentFinanceView => true
    case UnknownView => true
  }

  /**
   * renderView: a placeholder until the permissions load, the denial for a
   * gated view whose flag is off, then the view itself; a student finance
   * page without a student shows the finance screen and an unknown view the
   * journal.
   */
  function RenderView(perms: Option<UserPermissions>, view: View, activeStudentId: Option<string>): Screen {
    if perms.None? then LoadingPermissions
    else
      var p := perms.value;
      if view == StudentsView && !p.canViewStudents then NoAccess
      else if view == JournalView && !p.canViewJournal then NoAccess
      else if view == GroupsView && !p.canViewGroups then NoAccess
      else if view == SubscriptionsView && !p.canViewSubscriptions then NoAccess
      else if view == ScheduleView && !p.canViewSchedule then NoAccess
      else if view == FinanceView && !p.canViewFinance then NoAccess
      else if view == ArchiveView && !p.canViewArchive then NoAccess
      else if view == AdminView && !p.canManageUsers then NoAccess
      else if view == StudentFinanceView then
        (if Truthy(activeStudentId) then Show(StudentFinanceView) else Show(FinanceView))
      else if view == UnknownView then Show(JournalView)
      else Show(view)
  }

  /**
   * Without permissions only the placeholder is drawn; with them a view is
   * denied exactly when the flag it needs is off, and otherwise the view is
   * shown, but for the two fallbacks.  The dashboard is never gated, even
   * with canViewDashboard off.
   */
  lemma RenderRules(perms: Option<UserPermissions>, view: View, activeStudentId: Option<string>)
    ensures RenderView(perms, view, activeStudentId) == LoadingPermissions <==> perms.None?
    ensures perms.Some? ==> (RenderView(perms, view, activeStudentId) == NoAccess <==> !Allowed(perms.value, view))
    ensures perms.Some? && Allowed(perms.value, view) ==>
      RenderView(perms, view, activeStudentId) ==
        Show(if view == UnknownView then JournalView
             else if view == StudentFinanceView && !Truthy(activeStudentId) then FinanceView
             else view)
    ensures perms.Some? ==> RenderView(perms, DashboardView, activeStudentId) == Show(DashboardView)
  {
  }

  // ---------------------------------------------------------------------
  // Moving the period.

  datatype CalendarView = WeekCalendar | MonthCalendar | YearCalendar

  /** `d.setDate(d.getDate() + n)`: the date number overflows into the months around, so the instant moves by n days. */
  function ShiftDays(t: int, n: int): (r: int)
    ensures r == t + n * DayMs
  {
    AddDays(DayOf(t), n) * DayMs + t % DayMs
  }

  /** The day MakeDay gives for date c moved k months on with the same date number (which may run over). */
  function MonthStepDay(c: CivilDate, k: int): int {
    MakeDay(c.year, c.month + k, c.date)
  }

  /** `d.setMonth(d.getMonth() + k)`: same date number and time of day, month moved by k. */
  function ShiftMonths(t: int, k: int): int {
    MonthStepDay(CivilOfDay(DayOf(t)), k) * DayMs + t % DayMs
  }

  /** The day MakeDay gives for date c moved k years on with the same month and date number. */
  function YearStepDay(c: CivilDate, k: int): int {
    MakeDay(c.year + k, c.month, c.date)
  }

  /** `d.setFullYear(d.getFullYear() + k)`: same month, date number and time of day. */
  function ShiftYears(t: int, k: int): int {
    YearStepDay(CivilOfDay(DayOf(t)), k) * DayMs + t % DayMs
  }

  /** changeSchedulePeriod: a week, a month or a year forward or back, as the calendar shows. */
  function SchedulePeriod(t: int, cv: CalendarView, offset: int): int {
    match cv
    case WeekCalendar => ShiftDays(t, offset * 7)
    case MonthCalendar => ShiftMonths(t, offset)
    case YearCalendar => ShiftYears(t, offset)
  }

  /** changeJournalPeriod: by months on a wide screen, by weeks otherwise. */
  function JournalPeriod(t: int, isDesktop: bool, offset: int): int {
    if isDesktop then ShiftMonths(t, offset) else ShiftDays(t, offset * 7)
  }

  /** An instant is its day number times a day plus its time of day. */
  lemma DayParts(x: int, r: int)
    requires 0 <= r < DayMs
    ensures DayOf(x * DayMs + r) == x && (x * DayMs + r) % DayMs == r
  {
  }

  lemma DivMod12(m: int, q: int)
    ensures (m + 12 * q) / 12 == m / 12 + q && (m + 12 * q) % 12 == m % 12
  {
    var a, r := m / 12, m % 12;
    assert m + 12 * q == 12 * (a + q) + r;
  }

  /** MakeDay reads a month count past 11 or below 0 as months of the years around. */
  lemma MakeDayMonths(y: int, m: int, y': int, m': int, d: int)
    requires 12 * y + m == 12 * y' + m'
    ensures MakeDay(y, m, d) == MakeDay(y', m', d)
  {
    DivMod12(m', y' - y);
    assert m == m' + 12 * (y' - y);
  }

  /**
   * A week step moves by exactly seven days: same weekday and time of day,
   * and stepping back returns to the start.
   */
  lemma WeekStepRules(t: int, offset: int)
    ensures SchedulePeriod(t, WeekCalendar, offset) == t + offset * 7 * DayMs
    ensures JournalPeriod(t, false, offset) == SchedulePeriod(t, WeekCalendar, offset)
    ensures WeekDayOfDay(DayOf(SchedulePeriod(t, WeekCalendar, offset))) == WeekDayOfDay(DayOf(t))
    ensures SchedulePeriod(t, WeekCalendar, offset) % DayMs == t % DayMs
    ensures SchedulePeriod(SchedulePeriod(t, WeekCalendar, offset), WeekCalendar, -offset) == t
  {
    var t' := ShiftDays(t, offset * 7);
    assert SchedulePeriod(t, WeekCalendar, offset) == t';
    assert SchedulePeriod(t', WeekCalendar, -offset) == ShiftDays(t', -offset * 7);
    WeekShiftRules(t, offset);
  }

  /** Seven-day steps keep the weekday and the time of day. */
  lemma WeekShiftRules(t: int, offset: int)
    ensures ShiftDays(t, offset * 7) == t + offset * 7 * DayMs
    ensures WeekDayOfDay(DayOf(ShiftDays(t, offset * 7))) == WeekDayOfDay(DayOf(t))
    ensures ShiftDays(t, offset * 7) % DayMs == t % DayMs
  {
    var n := offset * 7;
    AddDaysKeepsTime(t, n);
    assert DayOf(ShiftDays(t, n)) == DayOf(t) + n;
    assert n == 7 * offset;
    WeekDayShift(DayOf(t), offset);
  }

  lemma WeekDayShift(z: int, q: int)
    ensures WeekDayOfDay(z + 7 * q) == WeekDayOfDay(z)
  {
    Mod7Shift(z + 4, q);
    assert z + 7 * q + 4 == z + 4 + 7 * q;
  }

  lemma Mod7Shift(x: int, q: int)
    ensures (x + 7 * q) % 7 == x % 7
  {
    var a, r := x / 7, x % 7;
    assert x + 7 * q == 7 * (a + q) + r;
  }

  /** The year and month k months after the given ones. */
  function MonthsLater(y: int, m: int, k: int): (ym: (int, int))
    ensures 0 <= ym.1 < 12 && 12 * ym.0 + ym.1 == 12 * y + m + k
  {
    (y + (m + k) / 12, (m + k) % 12)
  }

  /** An instant built from a day number and the time of day of t has that day and that time of day. */
  lemma StepParts(t: int, z: int, u: int)
    requires u == z * DayMs + t % DayMs
    ensures DayOf(u) == z && u % DayMs == t % DayMs
  {
    DayParts(z, t % DayMs);
  }

  /** A day rebuilt from its own calendar date with MakeDay is the same day. */
  lemma DayOfCivil(z: int, c: CivilDate)
    requires c == CivilOfDay(z)
    ensures ValidCivil(c) && MakeDay(c.year, c.month, c.date) == z
  {
    CivilOfDayValid(z);
  }

  /** The month step from c is MakeDay of the same date number in the month k months on. */
  lemma MonthStepNormal(c: CivilDate, k: int, y: int, m: int)
    requires 12 * y + m == 12 * c.year + c.month + k
    ensures MonthStepDay(c, k) == MakeDay(y, m, c.date)
  {
    MakeDayMonths(c.year, c.month + k, y, m, c.date);
  }

  /** A day known to be MakeDay of a valid date reads back as that date. */
  lemma ReadBack(c: CivilDate, z: int)
    requires ValidCivil(c) && z == MakeDay(c.year, c.month, c.date)
    ensures CivilOfDay(z) == c
  {
    CivilOfMakeDay(c);
  }

  /** A month step from a valid date c whose date number exists k months on lands on that date. */
  lemma MonthStepLands(c: CivilDate, k: int)
    requires ValidCivil(c)
    requires c.date <= DaysInMonth(MonthsLater(c.year, c.month, k).0, MonthsLater(c.year, c.month, k).1)
    ensures var ym := MonthsLater(c.year, c.month, k);
      CivilOfDay(MonthStepDay(c, k)) == CivilDate(ym.0, ym.1, c.date)
  {
    var ym := MonthsLater(c.year, c.month, k);
    MonthStepNormal(c, k, ym.0, ym.1);
    ReadBack(CivilDate(ym.0, ym.1, c.date), MonthStepDay(c, k));
  }

  /** Stepping back k months from the date k months after c gives c's day. */
  lemma MonthStepBack(c: CivilDate, k: int, C: CivilDate)
    requires 12 * C.year + C.month == 12 * c.year + c.month + k && C.date == c.date
    ensures MonthStepDay(C, -k) == MakeDay(c.year, c.month, c.date)
  {
    MonthStepNormal(C, -k, c.year, c.month);
  }

  /**
   * A month step whose date exists in the target month lands on that date of
   * that month at the same time of day, and stepping back returns to the
   * start.
   */
  lemma MonthStepRules(t: int, k: int)
    ensures var c := CivilOfDay(DayOf(t));
      var ym := MonthsLater(c.year, c.month, k);
      c.date <= DaysInMonth(ym.0, ym.1) ==>
        CivilOfDay(DayOf(ShiftMonths(t, k))) == CivilDate(ym.0, ym.1, c.date)
        && ShiftMonths(t, k) % DayMs == t % DayMs
        && ShiftMonths(ShiftMonths(t, k), -k) == t
  {
    var c := CivilOfDay(DayOf(t));
    var ym := MonthsLater(c.year, c.month, k);
    if c.date <= DaysInMonth(ym.0, ym.1) {
      var t' := ShiftMonths(t, k);
      DayOfCivil(DayOf(t), c);
      StepParts(t, MonthStepDay(c, k), t');
      MonthStepLands(c, k);
      var C := CivilOfDay(DayOf(t'));
      assert C == CivilDate(ym.0, ym.1, c.date);
      MonthStepBack(c, k, C);
      StepParts(t', MonthStepDay(C, -k), ShiftMonths(t', -k));
      assert ShiftMonths(t', -k) == DayOf(t) * DayMs + t % DayMs;
    }
  }

  /** A date number past the month's last day (by at most three) is that many days into the next month. */
  lemma OverflowDay(y: int, m: int, d: int)
    requires 0 <= m < 12 && DaysInMonth(y, m) < d <= 31
    ensures var next := MonthsLater(y, m, 1);
      MakeDay(y, m, d) == MakeDay(next.0, next.1, d - DaysInMonth(y, m))
      && ValidCivil(CivilDate(next.0, next.1, d - DaysInMonth(y, m)))
  {
    var next := MonthsLater(y, m, 1);
    var last := DaysInMonth(y, m);
    MakeDayShift(y, m, last, d - last);
    LastDayOfMonth(y, m);
    MakeDayShift(y, m + 1, 0, d - last);
    MakeDayMonths(y, m + 1, next.0, next.1, d - last);
    assert DaysInMonth(next.0, next.1) >= 28;
  }

  /** From a valid date whose date number the target month lacks, the step runs into the month after. */
  lemma MonthStepOverflowsFrom(c: CivilDate, k: int)
    requires ValidCivil(c)
    requires c.date > DaysInMonth(MonthsLater(c.year, c.month, k).0, MonthsLater(c.year, c.month, k).1)
    ensures var ym := MonthsLater(c.year, c.month, k);
      var next := MonthsLater(ym.0, ym.1, 1);
      CivilOfDay(MonthStepDay(c, k)) == CivilDate(next.0, next.1, c.date - DaysInMonth(ym.0, ym.1))
  {
    var ym := MonthsLater(c.year, c.month, k);
    var next := MonthsLater(ym.0, ym.1, 1);
    MonthStepNormal(c, k, ym.0, ym.1);
    OverflowDay(ym.0, ym.1, c.date);
    ReadBack(CivilDate(next.0, next.1, c.date - DaysInMonth(ym.0, ym.1)), MonthStepDay(c, k));
  }

  /**
   * A month step from a date the target month lacks (the 31st into a
   * 30-day month, the 29th to 31st into February) runs over into the first
   * days of the month after.
   */
  lemma MonthStepOverflows(t: int, k: int)
    ensures var c := CivilOfDay(DayOf(t));
      var ym := MonthsLater(c.year, c.month, k);
      var next := MonthsLater(ym.0, ym.1, 1);
      c.date > DaysInMonth(ym.0, ym.1) ==>
        CivilOfDay(DayOf(ShiftMonths(t, k))) == CivilDate(next.0, next.1, c.date - DaysInMonth(ym.0, ym.1))
  {
    var c := CivilOfDay(DayOf(t));
    var ym := MonthsLater(c.year, c.month, k);
    if c.date > DaysInMonth(ym.0, ym.1) {
      DayOfCivil(DayOf(t), c);
      StepParts(t, MonthStepDay(c, k), ShiftMonths(t, k));
      MonthStepOverflowsFrom(c, k);
    }
  }

  /**
   * A year step lands on the same month and date of the other year when that
   * date exists there (anything but the 29th of February), and stepping back
   * returns to the start.
   */
  lemma YearStepRules(t: int, k: int)
    ensures var c := CivilOfDay(DayOf(t));
      c.date <= DaysInMonth(c.year + k, c.month) ==>
        CivilOfDay(DayOf(SchedulePeriod(t, YearCalendar, k))) == CivilDate(c.year + k, c.month, c.date)
        && SchedulePeriod(t, YearCalendar, k) % DayMs == t % DayMs
        && SchedulePeriod(SchedulePeriod(t, YearCalendar, k), YearCalendar, -k) == t
  {
    var t' := ShiftYears(t, k);
    assert SchedulePeriod(t, YearCalendar, k) == t';
    assert SchedulePeriod(t', YearCalendar, -k) == ShiftYears(t', -k);
    ShiftYearsRules(t, k);
  }

  lemma ShiftYearsRules(t: int, k: int)
    ensures var c := CivilOfDay(DayOf(t));
      c.date <= DaysInMonth(c.year + k, c.month) ==>
        CivilOfDay(DayOf(ShiftYears(t, k))) == CivilDate(c.year + k, c.month, c.date)
        && ShiftYears(t, k) % DayMs == t % DayMs
        && ShiftYears(ShiftYears(t, k), -k) == t
  {
    var c := CivilOfDay(DayOf(t));
    if c.date <= DaysInMonth(c.year + k, c.month) {
      YearStepArrives(t, k);
      YearStepReturns(t, k, ShiftYears(t, k));
    }
  }

  lemma YearStepArrives(t: int, k: int)
    requires CivilOfDay(DayOf(t)).date <= DaysInMonth(CivilOfDay(DayOf(t)).year + k, CivilOfDay(DayOf(t)).month)
    ensures var c := CivilOfDay(DayOf(t));
      CivilOfDay(DayOf(ShiftYears(t, k))) == CivilDate(c.year + k, c.month, c.date)
      && ShiftYears(t, k) % DayMs == t % DayMs
  {
    var c := CivilOfDay(DayOf(t));
    CivilOfDayValid(DayOf(t));
    StepParts(t, YearStepDay(c, k), ShiftYears(t, k));
    YearStepLands(c, k);
  }

  /** Stepping back k years from an instant k years after t, on the same date and time of day, gives t. */
  lemma YearStepReturns(t: int, k: int, t': int)
    requires t' % DayMs == t % DayMs
    requires var c := CivilOfDay(DayOf(t));
      CivilOfDay(DayOf(t')) == CivilDate(c.year + k, c.month, c.date)
    ensures ShiftYears(t', -k) == t
  {
    var c := CivilOfDay(DayOf(t));
    DayOfCivil(DayOf(t), c);
    var C := CivilOfDay(DayOf(t'));
    YearStepBack(c, k, C);
    StepParts(t', YearStepDay(C, -k), ShiftYears(t', -k));
    assert ShiftYears(t', -k) == DayOf(t) * DayMs + t % DayMs;
  }

  /** A year step from a valid date c whose date exists k years on lands on that date. */
  lemma YearStepLands(c: CivilDate, k: int)
    requires ValidCivil(c) && c.date <= DaysInMonth(c.year + k, c.month)
    ensures CivilOfDay(YearStepDay(c, k)) == CivilDate(c.year + k, c.month, c.date)
  {
    ReadBack(CivilDate(c.year + k, c.month, c.date), YearStepDay(c, k));
  }

  /** Stepping back k years from the same month and date k years after c gives c's day. */
  lemma YearStepBack(c: CivilDate, k: int, C: CivilDate)
    requires C == CivilDate(c.year + k, c.month, c.date)
    ensures YearStepDay(C, -k) == MakeDay(c.year, c.month, c.date)
  {
    assert C.year + -k == c.year;
  }

  /** The date k months after c, held to the target month's last day. */
  function ClampedStepDay(c: CivilDate, k: int): int {
    var ym := MonthsLater(c.year, c.month, k);
    MakeDay(ym.0, ym.1, if c.date <= DaysInMonth(ym.0, ym.1) then c.date else DaysInMonth(ym.0, ym.1))
  }

  /** The month step the period buttons evidently mean: the date is held to the target month's last day. */
  function ShiftMonthsClamped(t: int, k: int): int {
    ClampedStepDay(CivilOfDay(DayOf(t)), k) * DayMs + t % DayMs
  }

  /** From a valid date the held step lands in the month k months on, on the same or its last date. */
  lemma ClampedLands(c: CivilDate, k: int)
    requires ValidCivil(c)
    ensures var ym := MonthsLater(c.year, c.month, k);
      var d := if c.date <= DaysInMonth(ym.0, ym.1) then c.date else DaysInMonth(ym.0, ym.1);
      CivilOfDay(ClampedStepDay(c, k)) == CivilDate(ym.0, ym.1, d)
      && (c.date <= DaysInMonth(ym.0, ym.1) ==> ClampedStepDay(c, k) == MonthStepDay(c, k))
  {
    var ym := MonthsLater(c.year, c.month, k);
    var d := if c.date <= DaysInMonth(ym.0, ym.1) then c.date else DaysInMonth(ym.0, ym.1);
    ReadBack(CivilDate(ym.0, ym.1, d), ClampedStepDay(c, k));
    MonthStepNormal(c, k, ym.0, ym.1);
  }

  /**
   * The held step always lands in the month k months on, on the same date or
   * that month's last day, at the same time of day; where the date exists
   * it agrees with the unheld step.
   */
  lemma ClampedStepRules(t: int, k: int)
    ensures var c := CivilOfDay(DayOf(t));
      var ym := MonthsLater(c.year, c.month, k);
      var r := CivilOfDay(DayOf(ShiftMonthsClamped(t, k)));
      r.year == ym.0 && r.month == ym.1
      && r.date == (if c.date <= DaysInMonth(ym.0, ym.1) then c.date else DaysInMonth(ym.0, ym.1))
      && ShiftMonthsClamped(t, k) % DayMs == t % DayMs
      && (c.date <= DaysInMonth(ym.0, ym.1) ==> ShiftMonthsClamped(t, k) == ShiftMonths(t, k))
  {
    var c := CivilOfDay(DayOf(t));
    DayOfCivil(DayOf(t), c);
    StepParts(t, ClampedStepDay(c, k), ShiftMonthsClamped(t, k));
    ClampedLands(c, k);
  }

  /** As written, one month on from 31 January 2025 is 3 March: February is skipped. */
  lemma JanuaryThirtyFirstSkipsFebruary(t: int)
    requires CivilOfDay(DayOf(t)) == CivilDate(2025, 0, 31)
    ensures CivilOfDay(DayOf(ShiftMonths(t, 1))) == CivilDate(2025, 2, 3)
  {
    var c := CivilOfDay(DayOf(t));
    StepParts(t, MonthStepDay(c, 1), ShiftMonths(t, 1));
    MonthStepOverflowsFrom(c, 1);
  }

  /** With the date held, one month on from 31 January 2025 is 28 February. */
  lemma JanuaryThirtyFirstHeld(t: int)
    requires CivilOfDay(DayOf(t)) == CivilDate(2025, 0, 31)
    ensures CivilOfDay(DayOf(ShiftMonthsClamped(t, 1))) == CivilDate(2025, 1, 28)
  {
    var c := CivilOfDay(DayOf(t));
    StepParts(t, ClampedStepDay(c, 1), ShiftMonthsClamped(t, 1));
    ClampedLands(c, 1);
  }

  // ---------------------------------------------------------------------
  // The journal's group.

  /** The effect that picks the journal's group: the first group by name, once, when none is chosen. */
  function DefaultJournalGroup(view: View, groups: seq<Group>, journalGroupId: string): Option<string> {
    if view == JournalView && |groups| > 0 && journalGroupId == "" then
      Some(SortByText(groups, GroupName)[0].id)
    else None
  }

  /**
   * A group is picked only on the journal, with groups to pick from and none
   * chosen, and it is a group whose name comes first.
   */
  lemma DefaultJournalGroupRules(view: View, groups: seq<Group>, journalGroupId: string)
    ensures DefaultJournalGroup(view, groups, journalGroupId).Some? <==>
      view == JournalView && |groups| > 0 && journalGroupId == ""
    ensures DefaultJournalGroup(view, groups, journalGroupId).Some? ==>
      exists g :: g in groups && g.id == DefaultJournalGroup(view, groups, journalGroupId).value
        && forall h :: h in groups ==> TextLe(g.name, h.name)
  {
    if DefaultJournalGroup(view, groups, journalGroupId).Some? {
      var sorted := SortByText(groups, GroupName);
      var g := sorted[0];
      SortByTextMembers(groups, GroupName, g);
      SortByTextSorted(groups, GroupName);
      forall h | h in groups ensures TextLe(g.name, h.name) {
        SortByTextMembers(groups, GroupName, h);
        var j :| 0 <= j < |sorted| && sorted[j] == h;
        if j == 0 {
          TextLeTotal(g.name, g.name);
        }
      }
    }
  }
}
