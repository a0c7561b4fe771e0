// The schedule screen: the event form and its checks, the decision whether a
// save or a delete touches the series, one occurrence, or creates an event,
// the minimum-duration clamp of a resize, and the week and month grids.
//
// Texts of the datetime inputs are read through `parse` (the Date
// constructor) and written through `format` (toISOString followed by the
// local-input formatting); neither is opened up here.

module ScheduleScreen {
  import opened Base
  import opened Calendar
  import opened Types
  import opened OccurrenceKey
  import opened Recurrence

  // ---------------------------------------------------------------------
  // The event form.

  datatype EventForm = EventForm(title: string, groupId: string, start: string, end: string, isRecurring: bool)

  datatype TextField = TitleField | StartField | EndField

  /**
   * handleChange for a text input.  A new start also moves the end to one hour
   * later; a start that does not parse makes toISOString throw, so nothing changes.
   */
  function HandleChange(f: EventForm, field: TextField, value: string,
                        parse: string -> DateValue, format: int -> string): EventForm
  {
    match field
    case TitleField => f.(title := value)
    case EndField => f.(end := value)
    case StartField =>
      var s := parse(value);
      if s.At? then f.(start := value, end := format(s.ms + HourMs)) else f
  }

  /** handleChange for the recurrence checkbox. */
  function HandleCheck(f: EventForm, checked: bool): EventForm {
    f.(isRecurring := checked)
  }

  /** handleGroupChange: an empty title takes the chosen group's name. */
  function HandleGroupChange(f: EventForm, groupId: string, groups: seq<Group>): EventForm {
    var g := FindGroup(groups, groupId);
    f.(groupId := groupId, title := if g.Some? && f.title == "" then g.value.name else f.title)
  }

  /** `groups.find(g => g.id === id)` */
  function FindGroup(groups: seq<Group>, id: string): Option<Group> {
    FindBy(groups, (g: Group) => g.id, id)
  }

  /**
   * Each change writes its own field and no other, except that a readable new
   * start also sets the end to the start plus one hour.
   */
  lemma HandleChangeRules(f: EventForm, field: TextField, value: string,
                          parse: string -> DateValue, format: int -> string)
    ensures var g := HandleChange(f, field, value, parse, format);
      g.groupId == f.groupId && g.isRecurring == f.isRecurring
      && (field == TitleField ==> g == f.(title := value))
      && (field == EndField ==> g == f.(end := value))
      && (field == StartField && parse(value).At? ==>
            g.title == f.title && g.start == value && g.end == format(parse(value).ms + HourMs))
      && (field == StartField && parse(value).InvalidDate? ==> g == f)
  {
  }

  /** Choosing a group sets it, and names an untitled event after the group. */
  lemma GroupChangeRules(f: EventForm, groupId: string, groups: seq<Group>)
    ensures var g := HandleGroupChange(f, groupId, groups);
      g.groupId == groupId && g.start == f.start && g.end == f.end && g.isRecurring == f.isRecurring
      && (f.title != "" ==> g.title == f.title)
      && (f.title == "" && (exists i :: 0 <= i < |groups| && groups[i].id == groupId) ==>
            exists i :: 0 <= i < |groups| && groups[i].id == groupId && g.title == groups[i].name)
  {
    if f.title == "" && (exists i :: 0 <= i < |groups| && groups[i].id == groupId) {
      var r := FindGroup(groups, groupId);
      var i :| 0 <= i < |groups| && groups[i] == r.value;
    }
  }

  // ---------------------------------------------------------------------
  // Submitting and the scope question.

  /** The parts of the selected (possibly new, partial) event the form consults. */
  datatype Selected = Selected(originalId: Option<string>, occurrenceKey: string, isRecurring: bool, isVirtual: bool)

  function SelectedOf(d: DisplayEvent): Selected {
    Selected(Some(d.originalId), d.occurrenceKey, d.isRecurring, d.isVirtual)
  }

  datatype Scope = Single | All

  datatype ScopeChoice = AskForScope | WithScope(scope: Scope)

  datatype SubmitOutcome = Ignored | EndNotAfterStart | Proceed(choice: ScopeChoice)

  /** Only a generated occurrence of a weekly event asks whether to change one or all. */
  function ScopeFor(sel: Selected): ScopeChoice {
    if sel.isRecurring && sel.isVirtual then AskForScope else WithScope(All)
  }

  /** `new Date(end) <= new Date(start)`: false when either text does not parse. */
  predicate EndBeforeStart(end: DateValue, start: DateValue) {
    end.At? && start.At? && end.ms <= start.ms
  }

  /** handleSubmit: a blank title does nothing, an end not after the start alerts. */
  function Submit(f: EventForm, sel: Selected, parse: string -> DateValue): SubmitOutcome {
    if Trim(f.title) == "" then Ignored
    else if EndBeforeStart(parse(f.end), parse(f.start)) then EndNotAfterStart
    else Proceed(ScopeFor(sel))
  }

  /** handleDeleteClick. */
  function DeleteClick(sel: Selected): ScopeChoice {
    ScopeFor(sel)
  }

  /**
   * The form goes on exactly when the title is not blank and the times are not
   * in the wrong order; with readable times, going on means the end is after
   * the start.  It asks for a scope only for a generated weekly occurrence.
   */
  lemma SubmitRules(f: EventForm, sel: Selected, parse: string -> DateValue)
    ensures Submit(f, sel, parse).Proceed?
        <==> Trim(f.title) != "" && !EndBeforeStart(parse(f.end), parse(f.start))
    ensures Submit(f, sel, parse).Proceed? && parse(f.start).At? && parse(f.end).At? ==>
      parse(f.end).ms > parse(f.start).ms
    ensures Submit(f, sel, parse) == Proceed(AskForScope) ==> sel.isRecurring && sel.isVirtual
    ensures Submit(f, sel, parse).Proceed? && !(sel.isRecurring && sel.isVirtual) ==>
      Submit(f, sel, parse) == Proceed(WithScope(All))
  {
  }

  // ---------------------------------------------------------------------
  // Save and delete dispatch.

  datatype EventData = EventData(title: string, groupId: Option<string>, start: DateValue, end: DateValue,
                                 isRecurring: bool)

  /** The store call a save or a delete turns into. */
  datatype ScheduleCall =
    | AddEvent(data: EventData)
    | UpdateEvent(id: string, data: EventData)
    | AddException(ex: ScheduleEventException)
    | DeleteEvent(id: string)

  /** eventData: an empty group is sent as null. */
  function EventDataOf(f: EventForm, parse: string -> DateValue): EventData {
    EventData(f.title, if f.groupId == "" then None else Some(f.groupId), parse(f.start), parse(f.end), f.isRecurring)
  }

  /**
   * handleSaveEvent: building the payload calls toISOString on both times,
   * which throws on an unreadable one, so no store call is made (None).
   * Otherwise no original id creates an event, scope 'all' updates the series,
   * and scope 'single' writes an exception for this occurrence with every
   * field of the form.
   */
  function SaveDispatch(sel: Selected, f: EventForm, scope: Scope, parse: string -> DateValue): Option<ScheduleCall> {
    var data := EventDataOf(f, parse);
    if data.start.InvalidDate? || data.end.InvalidDate? then None
    else if !Truthy(sel.originalId) then Some(AddEvent(data))
    else if scope == All then Some(UpdateEvent(sel.originalId.value, data))
    else Some(AddException(ScheduleEventException(sel.originalId.value, sel.occurrenceKey,
                                                  if data.title == "" then None else Some(data.title),
                                                  Some(data.groupId), Some(data.start), Some(data.end), false)))
  }

  /** executeDelete: scope 'all' deletes the series, 'single' writes a deletion exception. */
  function DeleteDispatch(d: DisplayEvent, scope: Scope): ScheduleCall {
    if scope == All then DeleteEvent(d.originalId)
    else AddException(ScheduleEventException(d.originalId, d.occurrenceKey, None, None, None, None, true))
  }

  /**
   * A save sends nothing exactly when a time is unreadable, and the form lets
   * such a time through: a titled form with an unreadable start or end goes
   * on past handleSubmit and then sends nothing.  With readable times a save
   * without an original id creates an event, one with scope 'all' updates the
   * series, and one with scope 'single' writes a non-deleting exception for
   * this occurrence; a delete drops the series, or for one occurrence writes
   * a deleting exception at its key.
   */
  lemma DispatchRules(sel: Selected, f: EventForm, scope: Scope, parse: string -> DateValue, d: DisplayEvent)
    ensures SaveDispatch(sel, f, scope, parse).None? <==> parse(f.start).InvalidDate? || parse(f.end).InvalidDate?
    ensures Trim(f.title) != "" && (parse(f.start).InvalidDate? || parse(f.end).InvalidDate?) ==>
      Submit(f, sel, parse).Proceed? && SaveDispatch(sel, f, scope, parse).None?
    ensures SaveDispatch(sel, f, scope, parse).Some? && !Truthy(sel.originalId) ==>
      SaveDispatch(sel, f, scope, parse).value.AddEvent?
    ensures SaveDispatch(sel, f, scope, parse).Some? && Truthy(sel.originalId) && scope == All ==>
      SaveDispatch(sel, f, scope, parse).value == UpdateEvent(sel.originalId.value, EventDataOf(f, parse))
    ensures SaveDispatch(sel, f, scope, parse).Some? && Truthy(sel.originalId) && scope == Single ==>
      var c := SaveDispatch(sel, f, scope, parse).value;
      c.AddException? && c.ex.originalEventId == sel.originalId.value
      && c.ex.originalStartTime == sel.occurrenceKey && !c.ex.isDeleted
    ensures (f.groupId == "") == (EventDataOf(f, parse).groupId == None)
    ensures scope == All ==> DeleteDispatch(d, scope) == DeleteEvent(d.originalId)
    ensures scope == Single ==>
      var c := DeleteDispatch(d, scope);
      c.AddException? && c.ex.isDeleted
      && c.ex.originalEventId == d.originalId && c.ex.originalStartTime == d.occurrenceKey
  {
  }

  /** The row a created or updated event is stored as: the payload's columns under the event's id. */
  function StoredEvent(id: string, data: EventData): ScheduleEvent {
    ScheduleEvent(id, data.title, data.groupId, data.start, data.end, data.isRecurring)
  }

  /**
   * A save that creates an event or updates the whole series, with readable
   * times, makes the calendar show the stored event with the form's title,
   * group and times first; a one-off event shows nothing else, and a weekly
   * one without exceptions shows occurrence i exactly i weeks after the
   * form's start, lasting as long as the form's event.
   */
  lemma SaveSeriesShowsForm(sel: Selected, f: EventForm, scope: Scope, parse: string -> DateValue,
                            newId: string, keyOf: int -> string)
    requires parse(f.start).At? && parse(f.end).At?
    requires !Truthy(sel.originalId) || scope == All
    ensures var call := SaveDispatch(sel, f, scope, parse);
      call.Some? && (call.value.AddEvent? || call.value.UpdateEvent?)
    ensures var call := SaveDispatch(sel, f, scope, parse).value;
      var id := if call.UpdateEvent? then sel.originalId.value else newId;
      var shown := Expand(StoredEvent(id, call.data), [], keyOf);
      var s, e := parse(f.start).ms, parse(f.end).ms;
      |shown| >= 1
      && shown[0] == DisplayEvent(id, f.title, if f.groupId == "" then None else Some(f.groupId), s, e,
                                  f.isRecurring, id, false, keyOf(s), None)
      && (!f.isRecurring ==> |shown| == 1)
      && (f.isRecurring ==>
            |shown| == Horizon + 1
            && forall i :: 1 <= i <= Horizon ==>
                 shown[i].start == s + i * WeekMs && shown[i].end == e + i * WeekMs
                 && shown[i].title == f.title && shown[i].id == OccurrenceId(id, i))
  {
    var call := SaveDispatch(sel, f, scope, parse).value;
    var id := if call.UpdateEvent? then sel.originalId.value else newId;
    var ev := StoredEvent(id, call.data);
    if f.isRecurring {
      RecurringWithoutExceptions(ev, keyOf);
    }
  }

  /** A shown occurrence points back to its event and carries its planned key. */
  lemma OccurrenceOrigin(ev: ScheduleEvent, exs: seq<ScheduleEventException>, k: nat, keyOf: int -> string)
    requires HasValidTimes(ev)
    requires Occurrence(ev, exs, k, keyOf).Some?
    ensures Occurrence(ev, exs, k, keyOf).value.originalId == ev.id
    ensures Occurrence(ev, exs, k, keyOf).value.occurrenceKey == keyOf(OccurrenceStart(ev, k))
    ensures Occurrence(ev, exs, k, keyOf).value.isVirtual
  {
  }

  /**
   * Deleting only generated occurrence k of a weekly event writes the exception
   * that hides that occurrence and leaves every other occurrence as it was
   * (for any key that tells minutes apart, as OccurrenceKey.KeyOf does).
   */
  lemma DeleteSingleHidesOnlyIt(ev: ScheduleEvent, exs: seq<ScheduleEventException>, k: nat, j: nat,
                                keyOf: int -> string)
    requires HasValidTimes(ev) && SeparatesMinutes(keyOf)
    requires Occurrence(ev, exs, k, keyOf).Some?
    ensures var call := DeleteDispatch(Occurrence(ev, exs, k, keyOf).value, Single);
      call.AddException?
      && Occurrence(ev, exs + [call.ex], j, keyOf) == if j == k then None else Occurrence(ev, exs, j, keyOf)
  {
    OccurrenceOrigin(ev, exs, k, keyOf);
    var d := Occurrence(ev, exs, k, keyOf).value;
    assert DeleteDispatch(d, Single) == AddException(DeletionAt(ev, OccurrenceStart(ev, k), keyOf));
    DeletionSuppressesOnlyItsOccurrence(ev, exs, k, j, keyOf);
  }

  /**
   * Saving only generated occurrence k with readable times shows that
   * occurrence with the form's times and group, and its title unless the title
   * is empty; every other occurrence stays as it was.  Stored events have
   * non-empty ids; an empty one would read as "no original" and create an event.
   */
  lemma SaveSingleOverridesOnlyIt(ev: ScheduleEvent, exs: seq<ScheduleEventException>, k: nat, j: nat,
                                  keyOf: int -> string, f: EventForm, parse: string -> DateValue)
    requires HasValidTimes(ev) && SeparatesMinutes(keyOf) && ev.id != ""
    requires Occurrence(ev, exs, k, keyOf).Some?
    requires parse(f.start).At? && parse(f.end).At?
    ensures var call := SaveDispatch(SelectedOf(Occurrence(ev, exs, k, keyOf).value), f, Single, parse).value;
      SaveDispatch(SelectedOf(Occurrence(ev, exs, k, keyOf).value), f, Single, parse).Some? && call.AddException?
      && (j != k ==> Occurrence(ev, exs + [call.ex], j, keyOf) == Occurrence(ev, exs, j, keyOf))
      && (j == k ==> Occurrence(ev, exs + [call.ex], j, keyOf) == Some(DisplayEvent(
            OccurrenceId(ev.id, k),
            if f.title != "" then f.title else ev.title,
            if f.groupId == "" then None else Some(f.groupId),
            parse(f.start).ms, parse(f.end).ms,
            ev.isRecurring, ev.id, true, keyOf(OccurrenceStart(ev, k)), Some(call.ex))))
  {
    OccurrenceOrigin(ev, exs, k, keyOf);
    var d := Occurrence(ev, exs, k, keyOf).value;
    var call := SaveDispatch(SelectedOf(d), f, Single, parse).value;
    assert call.AddException?;
    OverrideRules(ev, exs, k, call.ex, j, keyOf);
  }

  // ---------------------------------------------------------------------
  // Resizing.

  const MinDuration: int := 15 * MinuteMs

  datatype Edge = TopEdge | BottomEdge

  /**
   * The resize handler's clamp: the dragged edge goes to the cursor's time;
   * when that leaves less than fifteen minutes, the dragged edge is pushed
   * back to exactly fifteen minutes from the other.  Afterwards the event
   * lasts at least fifteen minutes and only the dragged edge has moved.
   */
  method ResizeClamp(start: int, end: int, cursor: int, edge: Edge) returns (newStart: int, newEnd: int)
    ensures newEnd - newStart >= MinDuration
    ensures edge == TopEdge ==>
      newEnd == end && newStart == (if end - cursor < MinDuration then end - MinDuration else cursor)
    ensures edge == BottomEdge ==>
      newStart == start && newEnd == (if cursor - start < MinDuration then start + MinDuration else cursor)
  {
    newStart, newEnd := start, end;
    if edge == TopEdge {
      newStart := cursor;
    } else {
      newEnd := cursor;
    }
    if newEnd - newStart < MinDuration {
      if edge == TopEdge {
        newStart := newEnd - MinDuration;
      } else {
        newEnd := newStart + MinDuration;
      }
    }
  }

  // ---------------------------------------------------------------------
  // The week and month grids, as day numbers (each day shown at local midnight).

  /**
   * `d.setDate(d.getDate() + k)` on a copy of day z: the date number overflows
   * into neighbouring months, so the result is k days later.
   */
  function AddDays(z: int, k: int): (r: int)
    ensures r == z + k
  {
    var c := CivilOfDay(z);
    CivilOfDayValid(z);
    MakeDayShift(c.year, c.month, c.date, k);
    MakeDay(c.year, c.month, c.date + k)
  }

  /** Moving the date number moves the day by as many days. */
  lemma MakeDayShift(y: int, m: int, d: int, k: int)
    ensures MakeDay(y, m, d + k) == MakeDay(y, m, d) + k
  {
  }

  /** weekDays' start: `setDate(getDate() - day + (day === 0 ? -6 : 1))`. */
  function StartOfWeek(z: int): int {
    var day := WeekDayOfDay(z);
    AddDays(z, -day + (if day == 0 then -6 else 1))
  }

  /** weekDays: the seven days from that start, each by setDate on a copy. */
  function WeekDays(t: int): seq<int> {
    var s := StartOfWeek(DayOf(t));
    seq(7, i requires 0 <= i < 7 => AddDays(s, i))
  }

  /** The week starts on the Monday on or before day z. */
  lemma StartOfWeekIsMonday(z: int)
    ensures WeekDayOfDay(StartOfWeek(z)) == 1
    ensures StartOfWeek(z) <= z < StartOfWeek(z) + 7
  {
    var day := WeekDayOfDay(z);
    MondayBack(z + 4, day);
  }

  /** Going back from weekday `day` to the Monday lands on weekday 1 (counted from offset 4). */
  lemma MondayBack(x: int, day: int)
    requires day == x % 7
    ensures (x - day + (if day == 0 then -6 else 1)) % 7 == 1
  {
    var q := x / 7;
    assert x - day == 7 * q;
    if day == 0 {
      assert x - day - 6 == 7 * (q - 1) + 1;
    } else {
      assert x - day + 1 == 7 * q + 1;
    }
  }

  /** weekDays is seven consecutive days starting on a Monday, and the current date is one of them. */
  lemma WeekDaysRules(t: int)
    ensures |WeekDays(t)| == 7
    ensures forall i :: 0 <= i < 7 ==> WeekDays(t)[i] == WeekDays(t)[0] + i
    ensures WeekDayOfDay(WeekDays(t)[0]) == 1
    ensures WeekDays(t)[0] <= DayOf(t) <= WeekDays(t)[6]
  {
    StartOfWeekIsMonday(DayOf(t));
  }

  datatype GridCell = GridCell(day: int, isCurrentMonth: bool)

  /** The 1st of the current month. */
  function MonthStart(t: int): int {
    var c := CivilOfDay(DayOf(t));
    MakeDay(c.year, c.month, 1)
  }

  /** monthGrid's first cell: the 1st moved back to a Monday. */
  function GridStart(t: int): int {
    var first := MonthStart(t);
    var weekday := WeekDayOfDay(first);
    AddDays(first, if weekday == 0 then -6 else 1 - weekday)
  }

  /** Cell i: i days after the first cell, flagged when its month number is the current one. */
  function GridCellAt(t: int, i: int): GridCell {
    var day := AddDays(GridStart(t), i);
    GridCell(day, CivilOfDay(day).month == CivilOfDay(DayOf(t)).month)
  }

  /** monthGrid: six weeks of cells, pushed one by one. */
  method MonthGrid(t: int) returns (grid: seq<GridCell>)
    ensures |grid| == 42
    ensures forall i :: 0 <= i < 42 ==> grid[i] == GridCellAt(t, i)
  {
    var month := CivilOfDay(DayOf(t)).month;
    var startDate := GridStart(t);
    var monthOf := (z: int) => CivilOfDay(z).month;
    grid := FillGrid(startDate, month, monthOf);
    forall i | 0 <= i < 42
      ensures grid[i] == GridCellAt(t, i)
    {
      GridCellIs(t, i, startDate, month, grid[i]);
    }
  }

  /**
   * The loop of monthGrid: 42 cells pushed one by one, day by day from
   * `start`, each flagged when `monthOf` (getMonth) gives `month`.
   */
  method FillGrid(start: int, month: int, monthOf: int -> int) returns (grid: seq<GridCell>)
    ensures |grid| == 42
    ensures forall i :: 0 <= i < 42 ==> grid[i] == GridCell(AddDays(start, i), monthOf(AddDays(start, i)) == month)
  {
    grid := [];
    for i := 0 to 42
      invariant |grid| == i
      invariant forall j :: 0 <= j < i ==> grid[j] == GridCell(AddDays(start, j), monthOf(AddDays(start, j)) == month)
    {
      var day := AddDays(start, i);
      grid := grid + [GridCell(day, monthOf(day) == month)];
    }
  }

  /** The cell the loop builds from the grid start and the current month is cell i. */
  lemma GridCellIs(t: int, i: int, start: int, month: int, cell: GridCell)
    requires start == GridStart(t) && month == CivilOfDay(DayOf(t)).month
    requires cell == GridCell(AddDays(start, i), CivilOfDay(AddDays(start, i)).month == month)
    ensures cell == GridCellAt(t, i)
  {
  }

  /** The grid starts on the Monday on or before the 1st, so the 1st is in its first row. */
  lemma GridStartRules(t: int)
    ensures GridStart(t) == StartOfWeek(MonthStart(t))
    ensures WeekDayOfDay(GridStart(t)) == 1
    ensures GridStart(t) <= MonthStart(t) < GridStart(t) + 7
  {
    StartOfWeekIsMonday(MonthStart(t));
  }

  /** Day d of the current month sits in cell `MonthStart - GridStart + d - 1`, flagged current. */
  lemma MonthDayCell(t: int, d: int)
    requires 1 <= d <= DaysInMonth(CivilOfDay(DayOf(t)).year, CivilOfDay(DayOf(t)).month)
    ensures 0 <= MonthStart(t) - GridStart(t) + d - 1 < 42
    ensures GridCellAt(t, MonthStart(t) - GridStart(t) + d - 1)
         == GridCell(MakeDay(CivilOfDay(DayOf(t)).year, CivilOfDay(DayOf(t)).month, d), true)
  {
    var c := CivilOfDay(DayOf(t));
    CivilOfDayValid(DayOf(t));
    GridStartRules(t);
    var i := MonthStart(t) - GridStart(t) + d - 1;
    var day := MakeDay(c.year, c.month, d);
    assert AddDays(GridStart(t), i) == day by {
      MakeDayShift(c.year, c.month, 1, d - 1);
    }
    assert CivilOfDay(day).month == c.month by {
      CivilOfMakeDay(CivilDate(c.year, c.month, d));
    }
  }

  /**
   * The grid is 42 consecutive days from that Monday, and every day of the
   * current month is in it, flagged as current.
   */
  lemma MonthGridRules(t: int)
    ensures forall i :: 0 <= i < 42 ==> GridCellAt(t, i).day == GridStart(t) + i
    ensures var c := CivilOfDay(DayOf(t));
      forall d :: 1 <= d <= DaysInMonth(c.year, c.month) ==>
        0 <= MonthStart(t) - GridStart(t) + d - 1 < 42
        && GridCellAt(t, MonthStart(t) - GridStart(t) + d - 1) == GridCell(MakeDay(c.year, c.month, d), true)
  {
    var c := CivilOfDay(DayOf(t));
    forall d | 1 <= d <= DaysInMonth(c.year, c.month)
      ensures 0 <= MonthStart(t) - GridStart(t) + d - 1 < 42
        && GridCellAt(t, MonthStart(t) - GridStart(t) + d - 1) == GridCell(MakeDay(c.year, c.month, d), true)
    {
      MonthDayCell(t, d);
    }
  }
}
