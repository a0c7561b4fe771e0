# A tutoring-centre CRM, modelled and verified in Dafny

The application keeps the books of a small tutoring centre: students and
their groups, subscription plans and the subscriptions students buy, the
attendance journal that charges lessons to those subscriptions, the money
ledger, a weekly calendar of lessons with per-occurrence exceptions, expenses,
and per-user permissions.  Its screens are React components over one context
object that talks to a hosted Postgres store.  This project models the logic
of that context and of the screens' handlers and derived lists, and proves
what they promise.

## How the model is laid out

| module | file | what it holds |
|---|---|---|
| `Base` | base.dfy | Option, JavaScript truthiness, `String(n)`, `padStart`, `trim`, `split`/`join`, `includes`, a case fold |
| `Types` | types.dfy | the records of types.ts and the remaining value of a subscription |
| `Sorting` | sorting.dfy | a stable sort by a text or number key (the `localeCompare` stand-in), `filter`, `slice`, `reverse` |
| `Calendar` | calendar.dfy | the ECMAScript date arithmetic the screens rely on: MakeDay, the year/month/date of a day, getDay |
| `OccurrenceKey` | occurrence_key.dfy | `getOccurrenceKey`, the `YYYY-MM-DDThh:mm` key of an occurrence |
| `Recurrence` | recurrence.dfy | `allVisibleEvents`: weekly expansion joined with the exceptions map |
| `Ledger` | ledger.dfy | the store as a class `Store` whose fields are the tables, one method per store call, and the context's write operations |
| `LedgerProperties` | ledger_properties.dfy | what those operations keep and change |
| `Journal` | journal.dfy | the attendance tap cycle, the roster, its money columns, adding and pasting students |
| `History` | history.dfy | a student's finance history: timeline, credit replay, worth after each entry |
| `Finance` | finance.dfy | the period bounds, the income/expense rollup, the expense forms |
| `ScheduleScreen` | schedule_ui.dfy | the event form, the single/all dispatch, the week and month grids, the resize clamp |
| `GroupsScreen`, `StudentsScreen`, `StudentEditScreen`, `PlansScreen`, `ArchiveScreen`, `DashboardScreen` | groups.dfy, students.dfy, student_edit.dfy, plans_screen.dfy, archive.dfy, dashboard.dfy | the other screens' lists and handlers |
| `AppShell` | app.dfy | `renderView`'s permission gate, the period buttons, the journal's default group |
| `AccessPolicy` | access.dfy | the two permission tables, profile creation, the admin panel |
| `Loading` | sanitize.dfy | the sanitising of the nine tables as they are loaded |

Conventions used throughout:

- An instant is an integer count of milliseconds on the local clock.  A day
  is 86 400 000 ms and there is no daylight-saving shift.  Calendar fields
  come from a proleptic Gregorian calendar proved against ECMAScript's
  MakeDay.
- A stored date text is read through `new Date(text)`.  Its result is a
  `DateValue`: an instant, or an Invalid Date.  Where the text itself
  matters, the parse is a function parameter.
- Every store call may fail.  The failure is a boolean input, so the model
  of each operation covers every combination of failures.  The store
  methods of `Ledger.Store` ensure that the new tables equal a pure function
  of the old ones.  The properties are proved about that function.
- An update or upsert payload column is either omitted, which keeps the
  stored value, or written.
- `NaN` is modelled as `None` wherever the source compares a number that
  may be `NaN`.  Any comparison with it is false.
- Money is `real`.  Lesson counts are `int`.

## Model

| member | source | states |
|---|---|---|
| Base.FindBy | AppContext.tsx:510 | `rows.find(x => key(x) === k)`, the lookup every screen uses for students, subscriptions, plans and groups: a row with that key, None exactly when no row has it |
| Base.FindByAt | AppContext.tsx:510 | With the keys unique, looking up the key of row j finds row j |
| Types.RemainingValueBounds | AppContext.tsx:513-515 | With 0 <= attended <= total and a non-negative price, the refund amount (lessons left times price per lesson, 0 without lessons) lies between 0 and the price paid |
| Sorting.SortByTextSorted | App.tsx:81 | Records sorted by name come out in non-decreasing name order (SortByTextMembers: with the same elements) |
| Sorting.FilterMembers | components/Groups.tsx:53 | An element survives a filter exactly when it was in the input and passes the test |
| OccurrenceKey.KeyOfSameMinute | AppContext.tsx:22-29 | getOccurrenceKey: two instants have the same key exactly when they fall in the same minute of the local clock |
| OccurrenceKey.KeyOfClockInjective | AppContext.tsx:22-29 | The key `YYYY-MM-DDThh:mm` (month shown from 1) of two wall-clock readings is equal exactly when the readings are equal |
| OccurrenceKey.KeyLayout | AppContext.tsx:22-29 | After the year the key is exactly twelve characters: dash, two-digit month, dash, two-digit date, `T`, two-digit hour, colon, two-digit minute |
| OccurrenceKey.KeyOfSeparatesMinutes | AppContext.tsx:22-29 | The key function tells instants apart exactly by their minute (the only fact the weekly expansion relies on) |
| Calendar.MonthDays | components/Finance.tsx:111-113 | The days from `new Date(y, m, 1)` to `new Date(y, m + 1, 0)` are exactly the days whose calendar year and month are y and m |
| Calendar.LastDayOfMonth | components/Finance.tsx:113 | Date 0 of the next month (JavaScript's overflow rule) is the last day of this month |
| Calendar.WallClockSameMinute | AppContext.tsx:22-29 | getFullYear/getMonth/getDate/getHours/getMinutes agree for two instants exactly when they fall in the same minute |
| Calendar.CivilOfDayValid | components/Schedule.tsx:250-269 | The calendar date read back from any day is a valid date (month 0..11, date within the month) and MakeDay of it is that day |
| Calendar.CivilOfDayInjective | components/Schedule.tsx:250-269 | Different days have different calendar dates |
| Calendar.YearOfDayUnique | components/Finance.tsx:114-116 | A day from January 1 of year y up to January 1 of y + 1 belongs to year y |
| Recurrence.LookupException | AppContext.tsx:291 | The exceptions-map lookup: None exactly when no exception has key `<event id>-<original start>` equal to k, else one of the exceptions with that key |
| Recurrence.BuildExceptionMap | AppContext.tsx:291 | Looking a key up in the built map agrees with LookupException for every key, so the map holds exactly the exceptions' keys |
| Recurrence.WeeklyOccurrences | AppContext.tsx:313-356 | The loop of 52 weeks yields exactly the modelled occurrences 1..52, each joined with its exception and left out when deleted or unreadable |
| Recurrence.EventInstances | AppContext.tsx:293-356 | One stored event gives nothing when its start or end is missing or unreadable, otherwise itself followed by its weekly occurrences when recurring |
| Recurrence.AllVisibleEvents | AppContext.tsx:289-360 | allVisibleEvents is the concatenation, event by event, of the instances of every stored event |
| Recurrence.ExpandShape | AppContext.tsx:293-356 | An unreadable event shows nothing; a readable one shows itself first, unchanged by any exception, then at most 52 generated occurrences, none when not recurring |
| Recurrence.RecurringWithoutExceptions | AppContext.tsx:306-356 | Without exceptions a recurring event shows 53 instances: itself, then occurrence i = 1..52 starting i weeks later with the same duration, keyed by its own start |
| Recurrence.OccurrenceKeysDistinct | AppContext.tsx:313-318 | Occurrences of one series fall in different minutes, so their keys differ |
| Recurrence.OccurrenceIdsDistinct | AppContext.tsx:340 | The ids `<id>-recur-<i>` of one series are distinct for distinct i |
| Recurrence.DeletionSuppressesOnlyItsOccurrence | AppContext.tsx:318-323 | Adding the deletion exception of occurrence k hides occurrence k and leaves every other occurrence exactly as it was |
| Recurrence.DeletionRemovesExactlyOne | AppContext.tsx:313-356 | A weekly event with only the deletion of occurrence k (1..52) shows the instances it shows without it, minus occurrence k |
| Recurrence.OverrideRules | AppContext.tsx:323-338 | An override exception replaces the title when its new title is non-empty, the group whenever a new group is given, the start, and the end by the new end or else new start plus the series' duration; other occurrences are untouched |
| Ledger.FindAttendance | AppContext.tsx:570 | `attendance.find` on (student, date): a stored row with that key, None exactly when no row has it |
| Ledger.UsableOf | AppContext.tsx:574 | The student's subscriptions with `lessons_attended < lessons_total`, in table order, and only those |
| Ledger.NewestAssigned | AppContext.tsx:576-577 | `find` by assigned group over the reloaded list (newest purchase first): a subscription assigned to the group and bought no earlier than any other assigned to it; None exactly when none is assigned to it |
| Ledger.SetCounter | AppContext.tsx:580-582 | `update({lessons_attended: n}).eq('id', id)`: every row with the id gets counter n, every other row is unchanged |
| Ledger.MergeInto | AppContext.tsx:591 | Every row with the payload's (student, date) key has the payload written over it; rows of other keys are unchanged |
| Ledger.RemoveAttendance | AppContext.tsx:616 | `delete().eq('student_id').eq('date')`: every remaining row was stored and lacks the key, and every stored row without the key remains |
| Ledger.RemoveSubscription | AppContext.tsx:527 | `delete().eq('id', id)`: every remaining row was stored with another id, and every stored row with another id remains |
| Ledger.ClearOtherDefaults | AppContext.tsx:462 | Every plan but the one with the id has its default flag cleared, and nothing else changes |
| Ledger.UpdatePlanRows | AppContext.tsx:464 | The plans with the id get the update's written fields, omitted fields keep their value, other plans are unchanged |
| Ledger.TransactionsWithId | AppContext.tsx:681 | `delete().neq('id', systemId)` on the transactions leaves exactly the stored ones with the system id |
| Ledger.SubscriptionsWithId | AppContext.tsx:682 | The same on the subscriptions: exactly the stored ones with the system id remain |
| Ledger.AttendanceOfStudent | AppContext.tsx:683 | `delete().neq('student_id', systemId)` on the marks: exactly the stored marks of that student id remain |
| Ledger.ZeroBalances | AppContext.tsx:685 | `update({balance: 0}).neq('id', keepId)`: every other student's balance is 0, nothing else changes |
| Ledger.Max0 | AppContext.tsx:608 | `Math.max(0, n)`: non-negative, at least n, and either 0 or n |
| Ledger.Written | AppContext.tsx:458-467 | A column omitted from a payload keeps its stored value; a written one takes the new value |
| Ledger.Store.constructor | AppContext.tsx:59-67 | The store starts with the given tables |
| Ledger.Store.UpdateAttended | AppContext.tsx:580-583 | On success the subscriptions become SetCounter of the id, on failure nothing changes; the other tables never change |
| Ledger.Store.UpsertAttendance | AppContext.tsx:591-592 | On success the marks become the upsert of the payload, on failure nothing changes |
| Ledger.Store.DeleteAttendanceRows | AppContext.tsx:616-617 | On success the marks lose the rows of (student, date), on failure nothing changes |
| Ledger.Store.InsertSubscription | AppContext.tsx:481-482 | Appends the subscription and reports success exactly unless the call fails or its id is taken; otherwise nothing changes |
| Ledger.Store.InsertTransaction | AppContext.tsx:492-493 | Appends the transaction and reports success exactly unless the call fails or its id is taken; otherwise nothing changes |
| Ledger.Store.DeleteSubscriptionRow | AppContext.tsx:527 | On success the subscriptions with the id are removed |
| Ledger.Store.ClearDefaultsExcept | AppContext.tsx:462 | On success every other plan loses its default flag |
| Ledger.Store.UpdatePlanRow | AppContext.tsx:464-465 | Returns the updated plan, or None on a store error or when no plan has the id (then nothing changes) |
| Ledger.Store.DeleteTransactionsExcept | AppContext.tsx:681 | On success only transactions with the kept id remain |
| Ledger.Store.DeleteSubscriptionsExcept | AppContext.tsx:682 | On success only subscriptions with the kept id remain |
| Ledger.Store.DeleteAttendanceExcept | AppContext.tsx:683 | On success only marks of the kept student id remain |
| Ledger.Store.ZeroBalancesExcept | AppContext.tsx:685 | On success every other student's balance is 0 |
| Ledger.Store.SetAttendanceRecord | AppContext.tsx:567-599 | The new tables are SetAttendance of the old ones (charge the chosen subscription unless the stored mark is linked, then upsert; a failed increment stops before the upsert), and it reports failure exactly when a call failed |
| Ledger.Store.DeleteAttendanceRecord | AppContext.tsx:601-625 | The new tables are DeleteAttendance of the old ones (give the linked lesson back, then delete the mark; a failed update stops before the delete) |
| Ledger.Store.AddStudentSubscription | AppContext.tsx:477-499 | The new tables are AddSubscription of the old ones; the result is the new subscription, None exactly when its insert failed |
| Ledger.Store.RefundAndCancel | AppContext.tsx:508-557 | The new tables are CancelSubscription of the old ones for the chosen variant |
| Ledger.Store.RefundToBalanceAndCancelSubscription | AppContext.tsx:508-532 | The new tables are CancelSubscription with the refund-to-balance description |
| Ledger.Store.ProcessCashRefundAndCancelSubscription | AppContext.tsx:534-557 | The new tables are CancelSubscription with the cash description |
| Ledger.Store.UpdateSubscriptionPlan | AppContext.tsx:458-467 | The new tables and result are UpdatePlan of the old ones (clear other defaults first when the flag is set, then the update) |
| Ledger.Store.ClearStudentFinancialData | AppContext.tsx:678-690 | The new tables are ClearFinancialData of the old ones: four independent calls, each filtered by `neq(..., systemId)` |
| LedgerProperties.FindAttendanceIndex | AppContext.tsx:570 | When a row with the key exists, the found row is the first one with that key |
| LedgerProperties.FindSubscriptionAt | AppContext.tsx:510 | With unique ids, looking up the id of row k finds row k |
| LedgerProperties.SameIdSameRow | AppContext.tsx:510 | With unique ids, a row carrying the id of a stored subscription is that subscription |
| LedgerProperties.ChooseSubscriptionRules | AppContext.tsx:572-578 | The charged subscription is one of the student's with lessons left, assigned to the mark's group or to none; one assigned to none only when no usable one of the group exists; among the usable ones of its kind it was bought no earlier than any other; none exactly when the student is unknown or has no usable one |
| LedgerProperties.UpsertFind | AppContext.tsx:591 | After an upsert the first row with the payload's key is the payload merged over the stored row, or the new row |
| LedgerProperties.UpsertKeepsKeysUnique | AppContext.tsx:591 | An upsert keeps at most one mark per (student, date) |
| LedgerProperties.SetCounterKeepsIdsUnique | AppContext.tsx:580-582 | A counter update keeps subscription ids unique |
| LedgerProperties.ChargeTouchesOnlyItsRow | AppContext.tsx:579-585 | Every subscription whose counter changes under a mark is the chosen one |
| LedgerProperties.SetAttendanceKeepsValid | AppContext.tsx:567-599 | setAttendanceRecord keeps ids unique, one mark per (student, date) and every counter within 0..total, whichever calls fail |
| LedgerProperties.SetAttendanceChargesAtMostOne | AppContext.tsx:572-588 | A mark charges at most one subscription, by exactly one lesson, only for present/absent over an unlinked stored mark, never one of another group |
| LedgerProperties.ExcusedKeepsLesson | AppContext.tsx:572 | An excused mark changes no counter, and without a link in the payload keeps the stored row's link |
| LedgerProperties.LinkedMarkNotRecharged | AppContext.tsx:586-588 | A present or absent mark over a linked stored row charges nothing and keeps that link |
| LedgerProperties.SetAttendanceFailures | AppContext.tsx:583-592 | A failed increment writes nothing; a successful increment with a failed upsert leaves the lesson charged and the mark unstored |
| LedgerProperties.RemoveAttendanceKeepsKeysUnique | AppContext.tsx:616 | Deleting marks keeps at most one mark per key, and none with the deleted key is left |
| LedgerProperties.SubscriptionsKeepRange | AppContext.tsx:608-611 | Setting a counter to a value within 0..total keeps every counter in range |
| LedgerProperties.DeleteGivesLessonBack | AppContext.tsx:601-625 | Deleting a mark linked to a known subscription sets its counter to max(0, n - 1), then removes the mark; a failed update changes nothing; other tables untouched, constraints kept |
| LedgerProperties.AddSubscriptionEffect | AppContext.tsx:477-499 | Buying adds exactly one subscription with a zero counter and, unless that insert fails, one payment of the price paid linked to it; marks untouched |
| LedgerProperties.CancelUnknownIsNoop | AppContext.tsx:510-511 | An unknown subscription id writes nothing |
| LedgerProperties.CancelKnownEffect | AppContext.tsx:508-532 | Cancelling a known subscription writes one refund of its remaining value linked to it, then deletes it; balance, marks and plans untouched |
| LedgerProperties.CancelFailures | AppContext.tsx:508-551 | Neither call's error is checked: a failed refund insert writes no refund but the delete still removes the subscription; a failed delete keeps the subscription; every run keeps the tables valid and leaves students, marks and plans alone |
| LedgerProperties.RemoveSubscriptionKeepsValid | AppContext.tsx:527 | Deleting a subscription keeps ids unique and counters in range |
| LedgerProperties.CancelVariantsDifferOnlyInDescription | AppContext.tsx:508-557 | The two cancel variants give the same tables except for the refund's description |
| LedgerProperties.BalanceRefundCarriesMarker | AppContext.tsx:522 | The refund-to-balance description contains `Возврат на баланс` |
| LedgerProperties.CashRefundLacksMarker | AppContext.tsx:548 | The cash refund description never contains `Возврат на баланс`, whatever the id |
| LedgerProperties.UpdatePlanDefaults | AppContext.tsx:458-467 | Raising the default flag lowers it on every other plan, which otherwise keep every field, and that write stays even when the update then fails; the plan with the id takes exactly the named fields when the update goes through and is unchanged otherwise; the result exists exactly when the update goes through and the id is stored; a successful raise leaves that plan the only default; no other table changes |
| LedgerProperties.ClearWipesFinancialTables | AppContext.tsx:678-690 | After the reset every transaction, subscription and mark left is one the system-id filters spare, every other balance is 0, groups and plans untouched |
| Journal.CycleRules | components/Journal.tsx:19-44 | Only an excused mark is deleted by a tap; other taps write the next status (none, present, absent, excused) unlinked, with the grade only when the next is present |
| Journal.HandleAttendanceCycle | components/Journal.tsx:19-44 | The store's tables after a tap are the Tap model of the old tables |
| Journal.HandleSetGrade | components/Journal.tsx:46-55 | The store's tables after setting a grade are SetAttendance of a present mark with that grade |
| Journal.SetGradeStoresPresent | components/Journal.tsx:46-55 | Setting a grade stores a present mark carrying exactly that grade |
| Journal.TapOnEmpty | components/Journal.tsx:19-44 | The first tap on an empty cell stores a present mark linked to the chosen subscription, which is charged one lesson |
| Journal.TapOnMarked | components/Journal.tsx:19-44 | A tap on a present or absent mark moves it on, keeps its link and charges nothing |
| Journal.TapOnExcused | components/Journal.tsx:19-44 | A tap on an excused mark deletes it and gives its lesson back |
| Journal.ThreeTaps | components/Journal.tsx:19-44 | Three taps on an empty cell leave one excused mark linked to the subscription they charged |
| Journal.LastTap | components/Journal.tsx:19-44 | The fourth tap deletes that mark and gives back the lesson the first charged |
| Journal.FourTapsRestore | components/Journal.tsx:19-44 | Four taps on an empty cell leave every table as it was |
| Journal.UndoCharge | AppContext.tsx:580-611 | Charging a subscription one lesson and then giving it back restores the subscriptions |
| Journal.RosterRules | components/Journal.tsx:208-215 | Nobody without a group selected; otherwise exactly the group's active students, in name order |
| Journal.StudentColumns | components/Journal.tsx:283-310 | The loop's columns are ColumnsOf: lessons left on active subscriptions less unlinked present/absent marks, and balance plus their remaining value |
| Journal.ColumnsMeaning | components/Journal.tsx:283-310 | The lessons column is the lessons left (at least one per active subscription) less the unlinked marks; with non-negative figures the money column is at least the balance |
| Journal.StudentFinancials | components/Journal.tsx:283-310 | The map the loop fills is FinancialsOf the roster |
| Journal.FinancialsKeys | components/Journal.tsx:283-310 | Every roster student has an entry and nothing else does |
| Journal.FinancialsLastWins | components/Journal.tsx:283-310 | A student whose id does not come again later gets their own columns |
| Journal.SuggestionRules | components/Journal.tsx:337-345 | None when the query is blank or no group is selected; otherwise the first min(10, n) of the n candidates in list order, a candidate being an active student outside the group whose name contains the query ignoring case, so every candidate is listed when there are at most ten |
| Journal.AddSuggestedKeepsIdsDistinct | components/Journal.tsx:328-335 | Adding a suggested student writes its old group ids followed by the group, without repeats |
| Journal.PastedNamesAreNames | components/Journal.tsx:358-365 | Every pasted name is trimmed and non-empty |
| Journal.PasteRoundTrip | components/Journal.tsx:358-365 | Names joined one per line and pasted come back as the same names |
| Journal.NewStudentsRules | components/Journal.tsx:312-326 | With a group selected, one new active student per name in that group with a zero balance; nothing without one |
| History.TimelineMembers | components/StudentFinanceHistory.tsx:51-65 | The timeline holds exactly the student's transactions with a valid date and present/absent marks whose date parses, each at its date |
| History.TimelineSorted | components/StudentFinanceHistory.tsx:65 | The timeline runs oldest first |
| History.NetEffectAppend | components/StudentFinanceHistory.tsx:69-77 | The credit effect of two runs is the sum of their effects |
| History.LedgerWritesCredit | components/StudentFinanceHistory.tsx:69-77 | A refund to the balance the ledger writes adds its remaining value to the credit; a cash refund and a payment add nothing |
| History.LessonsUsedMonotone | components/StudentFinanceHistory.tsx:102 | A later date never counts fewer used lessons |
| History.ValueAtRemaining | components/StudentFinanceHistory.tsx:95-111 | A held subscription is worth its remaining value with the lessons linked so far as attended; one bought later, refunded by then or used up is worth 0 |
| History.ValueAtBounds | components/StudentFinanceHistory.tsx:95-111 | With a non-negative price a subscription is worth between 0 and its price |
| History.SubsValueBounds | components/StudentFinanceHistory.tsx:95-111 | With non-negative prices the subscriptions are worth between 0 and the sum paid |
| History.RefundedStaysWorthless | components/StudentFinanceHistory.tsx:99-100 | Once a refund of a subscription is dated, it is worth nothing from then on |
| History.ReplayEndsAtBalance | components/StudentFinanceHistory.tsx:78-93 | The replay starts at the balance less the net effect and ends exactly at the stored balance |
| History.Replay | components/StudentFinanceHistory.tsx:78-150 | The loop's rows are the Rows model reversed: one per shown entry, newest first |
| History.ProcessedHistory | components/StudentFinanceHistory.tsx:48-151 | processedHistory is HistoryOf: nothing for an unknown student or empty timeline, else the replay of the student's timeline |
| History.RowsCount | components/StudentFinanceHistory.tsx:115-147 | One row per transaction and per lesson charged to a subscription the student has |
| History.RowsFlags | components/StudentFinanceHistory.tsx:115-136 | Transaction rows show their amount and lesson rows do not; a lesson row is never styled as a deposit |
| History.RowsSorted | components/StudentFinanceHistory.tsx:139-147 | Over a timeline sorted oldest first, the rows are too |
| History.HistoryNewestFirst | components/StudentFinanceHistory.tsx:150 | The history runs newest first |
| History.NewestRowBalance | components/StudentFinanceHistory.tsx:113-146 | When the newest entry is shown, the first row's balance is the stored balance plus what the subscriptions are worth at that date |
| Finance.MonthPeriodExact | components/Finance.tsx:108-135 | The month period holds exactly the instants in the same calendar month as now |
| Finance.YearPeriodExact | components/Finance.tsx:114-135 | The year period holds exactly the instants in the same calendar year as now |
| Finance.PeriodContainsNow | components/Finance.tsx:108-122 | Every period contains now when now lies between the epoch and the largest date |
| Finance.IncomeIsPaymentsLessRefunds | components/Finance.tsx:137-146 | Income is the sum of payments less the sum of refunds; corrections and debits count nothing |
| Finance.LedgerWritesIncome | components/Finance.tsx:137-146 | The payment the ledger writes raises income by the price paid, a refund lowers it by the remaining value |
| Finance.RollupMeaning | components/Finance.tsx:124-156 | The rollup lists exactly the rows dated within the period, and profit is payments less refunds less expenses of the period |
| Finance.SubmitExpenseRules | components/Finance.tsx:45-51 | A saved expense is never blank and its description trimmed; the form saves exactly with a description, a positive amount and a date |
| Finance.AmountInput | components/Finance.tsx:77 | The amount is never negative, and a non-negative number is kept as typed |
| Finance.LoadThenSubmit | components/Finance.tsx:34-51 | Opening a stored expense and saving it unchanged keeps its description up to the trim; the literal 'иное' comes back empty and is refused |
| Finance.LoadKey | components/Finance.tsx:34-41 | A category key opens the form on its own category with no custom text |
| Finance.KeysAreTrimmed | components/Finance.tsx:16 | Every category key is equal to its own trim |
| Finance.AddNewExpenseRules | components/Finance.tsx:173-190 | The inline row adds exactly when its description is non-empty and its amount parses positive, then resets; otherwise the form is unchanged |
| ScheduleScreen.HandleChangeRules | components/Schedule.tsx:56-70 | Each change writes its own field only, except that a readable new start also sets the end one hour later |
| ScheduleScreen.GroupChangeRules | components/Schedule.tsx:72-82 | Choosing a group sets it and names an untitled event after the group |
| ScheduleScreen.SubmitRules | components/Schedule.tsx:84-96 | The form goes on exactly when the title is not blank and the end is not before the start; only a generated weekly occurrence asks for a scope |
| ScheduleScreen.DispatchRules | components/Schedule.tsx:300-363 | A save sends nothing exactly when a time is unreadable (toISOString throws), and handleSubmit lets such a titled form through; otherwise no original id creates, scope 'all' updates the series, 'single' writes a non-deleting exception; a delete with scope 'all' drops the series, one with scope 'single' writes a deleting exception for this event's occurrence key |
| ScheduleScreen.SaveSeriesShowsForm | components/Schedule.tsx:300-317 | Creating an event or saving the whole series with readable times shows the stored event with the form's title, group and times; a one-off shows nothing else, and a weekly one shows occurrence i exactly i weeks later with the form's title |
| ScheduleScreen.OccurrenceOrigin | components/Schedule.tsx:300-330 | A shown occurrence points back to its event and carries its planned key |
| ScheduleScreen.DeleteSingleHidesOnlyIt | components/Schedule.tsx:345-363 | Deleting only occurrence k writes the exception that hides it and leaves every other occurrence as it was |
| ScheduleScreen.SaveSingleOverridesOnlyIt | components/Schedule.tsx:300-330 | Saving only occurrence k shows it with the form's times and group (and title unless empty); every other occurrence stays |
| ScheduleScreen.ResizeClamp | components/Schedule.tsx:661-668 | After a resize the event lasts at least fifteen minutes; only the dragged edge moves, to the cursor, or to fifteen minutes from the other edge when the cursor is closer |
| ScheduleScreen.AddDays | components/Schedule.tsx:237-269 | `setDate(getDate() + k)` moves the day number by exactly k |
| ScheduleScreen.StartOfWeekIsMonday | components/Schedule.tsx:237-248 | The week start is the Monday on or before the day, at most six days earlier |
| ScheduleScreen.WeekDaysRules | components/Schedule.tsx:237-248 | weekDays is seven consecutive days from a Monday, and the current day is one of them |
| ScheduleScreen.MonthGrid | components/Schedule.tsx:250-269 | The 42 cells pushed are GridCellAt: day i from the grid start, flagged when in the current month |
| ScheduleScreen.FillGrid | components/Schedule.tsx:258-267 | Cell j of the loop is day start + j, flagged exactly when its month is the given one |
| ScheduleScreen.GridStartRules | components/Schedule.tsx:250-257 | The grid starts on the Monday on or before the 1st, so the 1st is in the first row |
| ScheduleScreen.MonthGridRules | components/Schedule.tsx:250-269 | The grid is 42 consecutive days from that Monday, and every day of the month is in it, flagged as current |
| GroupsScreen.DisplayGroupsRules | components/Groups.tsx:58-61 | The display list holds the same groups in name order, with the pseudo-group appended last |
| GroupsScreen.StudentsByGroup | components/Groups.tsx:63-83 | The map has a list per displayed group, each the sorted Bucket of the active students for that id |
| GroupsScreen.PushStudent | components/Groups.tsx:68-78 | One student's turn appends its pushes to every existing list and creates none |
| GroupsScreen.BucketMembers | components/Groups.tsx:68-78 | A student is in a group's list exactly when it lists that group, or lists none and the list is the pseudo-group's |
| GroupsScreen.BucketRules | components/Groups.tsx:63-83 | Each list holds only active students, exactly those of its group, in name order |
| GroupsScreen.RemoveIdCounts | components/Groups.tsx:182-188 | Removing drops every occurrence of the id and keeps every other id as often as before |
| GroupsScreen.AddThenRemove | components/Groups.tsx:174-188 | Removing a student just added to a group it was not in restores its group ids |
| GroupsScreen.MembershipEdits | components/Groups.tsx:174-188 | Adding puts the group among the ids after the old ones; removing takes it out entirely and keeps the rest |
| GroupsScreen.DeleteGroupRules | components/Groups.tsx:99-118 | The student writes go out first either way: each accepted one drops exactly the id, and every other field and student is unchanged; an accepted group delete leaves no row with the id and shows the notice, a refused one keeps the groups table and shows nothing |
| GroupsScreen.FinishEditRules | components/Groups.tsx:136-153 | A rename writes exactly when the trimmed name is non-empty, the group exists and the name differs; it writes the trimmed name |
| GroupsScreen.AvailableStudentsRules | components/Groups.tsx:201-203 | None without a query; with one, the suggestions are the first min(10, n) of the n active students outside the group whose name contains the query ignoring case, in list order, so every such student is suggested when n is at most ten |
| StudentsScreen.FilteredAndSortedRules | components/Students.tsx:53-71 | Listed exactly when active, in the filtered group when a filter is on, and matching the query on name or parent's name ignoring case; in name order |
| StudentsScreen.GroupedForDisplay | components/Students.tsx:73-102 | A group id has a list exactly when some listed student has it, holding those students in list order; keys distinct and in label order; `unassigned` is the group-less students, emptied while a filter is on |
| StudentsScreen.PushIntoGroups | components/Students.tsx:79-87 | One student's turn pushes it into each of its group ids' lists, creating the missing ones in order |
| StudentsScreen.SortedKeys | components/Students.tsx:92-93 | Sorting the keys by label keeps the same distinct keys, in label order |
| StudentsScreen.ListedMembers | components/Students.tsx:79-87 | A student is under a group id exactly when it is in the list and has that id |
| StudentsScreen.GroupingRules | components/Students.tsx:73-102 | Every listed student with groups appears under each of its ids and nowhere else; one without groups only among the unassigned, and only without a filter |
| StudentsScreen.SaveStudentRules | components/Students.tsx:120-143 | Without an id a new student is created, active with balance 0 and the form's name, parent's name, parent's phone and groups; with one those four fields are sent as the update; in both an empty birth date is sent as null, any other as typed |
| StudentEditScreen.TransactionStyle | components/StudentEditModal.tsx:9-22 | Only a debit is shown with a minus, and exactly a debit in red; exactly a correction in blue; every other type with a plus |
| StudentEditScreen.PaymentRules | components/StudentEditModal.tsx:85-101 | A payment is issued exactly for a saved student and a known plan whose price is at least its discount, for price − discount and the plan's lessons |
| StudentEditScreen.PurchasablePlansRules | components/StudentEditModal.tsx:311 | A plan is offered exactly when it is a plan with a positive price |
| StudentEditScreen.ToggleGroupRules | components/StudentEditModal.tsx:114-124 | Checking adds the group after the old ids, unchecking removes every copy and keeps the rest; unchecking a just-checked box restores the ids |
| StudentEditScreen.CardMatchesRefund | components/StudentEditModal.tsx:265-291 | The card's money left is the refund a cancel writes; with lessons left, a positive price and counters in range it is positive and at most the price |
| StudentEditScreen.AttendanceHistoryRules | components/StudentEditModal.tsx:55-60 | Nothing for an unsaved student; otherwise exactly the student's records, newest first |
| PlansScreen.InitialForm | components/Subscriptions.tsx:26-31 | An edited plan's form has its name, price and discount and its lesson count unless 0; a new plan's form is empty with 8 lessons; the lesson count is never 0 |
| PlansScreen.HandleChangeRules | components/Subscriptions.tsx:33-36 | A change writes only its own field; a negative or unreadable value changes nothing, a non-negative one is taken |
| PlansScreen.ChangesKeepNonNegative | components/Subscriptions.tsx:33-36 | A run of changes from non-negative values never leaves a negative figure |
| PlansScreen.InitialFormNonNegative | components/Subscriptions.tsx:26-31 | A new plan's form starts non-negative, and so does an edited plan's whose figures are |
| PlansScreen.SaveRules | components/Subscriptions.tsx:110-132 | Saving an edited plan gives it the form's four fields, keeping id and default flag; other plans unchanged; with nothing edited a new plan is inserted |
| PlansScreen.SetDefaultRules | components/Subscriptions.tsx:134-137 | Starring an existing plan leaves it the only default and changes no plan except in the flag |
| PlansScreen.DeleteClick | components/Subscriptions.tsx:103-108 | The plan is deleted exactly when the user confirms |
| PlansScreen.RowRules | components/Subscriptions.tsx:157-186 | The lesson price shows exactly when the final price and lesson count are positive; the full price is struck exactly with a discount; only the system plan has no actions and a disabled star |
| ArchiveScreen.ArchivedIds | components/Archive.tsx:11 | The ids of the archived students, one per archived student, in list order |
| ArchiveScreen.ArchivedIdsRules | components/Archive.tsx:11 | An id is listed exactly when an archived student carries it |
| ArchiveScreen.ToggleRules | components/Archive.tsx:13-19 | A toggle flips the id and no other, keeps the selection free of repeats, and a second toggle gives the selection back |
| ArchiveScreen.HeaderCheckedRules | components/Archive.tsx:83 | With unique ids, the header box is checked exactly when every archived student is selected and there is one |
| ArchiveScreen.SelectAllRules | components/Archive.tsx:21-27 | Checking selects exactly the archived ids (box checked when there is any); unchecking selects none |
| ArchiveScreen.RestoreClick | components/Archive.tsx:29-37 | Nothing is sent for an empty selection, otherwise one update per selected id |
| ArchiveScreen.RestoreSelected | components/Archive.tsx:29-37 | Each selected student whose write is accepted is restored; the rest are unchanged |
| ArchiveScreen.RestoreRules | components/Archive.tsx:29-37 | A restored student is active with no archive date and otherwise the same; it leaves the archive, and others stay |
| ArchiveScreen.DeleteRules | components/Archive.tsx:39-53 | An accepted delete removes exactly the selected students and clears the selection; an empty selection or refused delete changes nothing |
| DashboardScreen.ActiveCountRules | components/Dashboard.tsx:26 | Active count plus archived count is the number of students, and each student is on exactly one side |
| DashboardScreen.UpcomingRules | components/Dashboard.tsx:29-36 | At most five events, all calendar events after now, soonest first; a future event left out has five listed starting no later |
| AppShell.RenderRules | App.tsx:104-156 | Without permissions only the placeholder; with them a view is denied exactly when its flag is off, otherwise shown (student finance without a student falls back to finance, unknown to the journal) |
| AppShell.ShiftDays | App.tsx:65-75 | `setDate(getDate() + n)` moves the instant by n days exactly |
| AppShell.WeekStepRules | App.tsx:75 | A week step moves by seven days: same weekday and time of day, and stepping back returns |
| AppShell.MonthStepRules | App.tsx:63-76 | A month step whose date exists in the target month lands on it at the same time of day, and stepping back returns |
| AppShell.MonthStepOverflows | App.tsx:63-76 | A month step from a date the target month lacks runs into the first days of the month after |
| AppShell.YearStepRules | App.tsx:77 | A year step lands on the same month and date when it exists there, and stepping back returns |
| AppShell.ClampedStepRules | App.tsx:63-76 | The held month step always lands in the month k months on, on the same date or its last day, at the same time; where the date exists it agrees with the unheld step |
| AppShell.JanuaryThirtyFirstSkipsFebruary | App.tsx:76 | As written, one month on from 31 January 2025 is 3 March |
| AppShell.JanuaryThirtyFirstHeld | App.tsx:76 | With the date held, one month on from 31 January 2025 is 28 February |
| AppShell.DefaultJournalGroupRules | App.tsx:97-101 | A group is picked only on the journal with groups and none chosen, and it is one whose name comes first |
| AccessPolicy.KeysListed | components/AdminPanel.tsx:6-16 | The nine keys are all different and the panel lists every one |
| AccessPolicy.FlagsDetermine | types.ts:4-14 | Two permission records that agree on every key are the same record |
| AccessPolicy.WithFlagRules | components/AdminPanel.tsx:22-28 | Writing a key sets it and leaves every other key |
| AccessPolicy.GateByKey | App.tsx:108-117 | A view is let through exactly when it checks no key or its key is on; canViewDashboard gates nothing |
| AccessPolicy.TablesRules | AppContext.tsx:31-53 | The admin table has every flag on; the default table has off exactly finance, archive and user management, so a default profile is denied exactly those screens |
| AccessPolicy.FetchProfileRules | AppContext.tsx:124-156 | A stored profile is kept; a new one has the session's id and e-mail (empty when missing), is admin with every flag exactly when the table was empty, else teacher with the defaults; a failed insert leaves none |
| AccessPolicy.ToggleRules | components/AdminPanel.tsx:22-28 | Toggling writes the profile's row with the key negated and every other as it was; toggling again gives the old flags back |
| AccessPolicy.ChangeRoleRules | components/AdminPanel.tsx:30-35 | Another user's role never asks; one's own goes ahead only when confirmed; what is sent is the new role for that row |
| AccessPolicy.UpdateProfiles | AppContext.tsx:165-175 | An accepted update writes its one field on the rows of its id; a failed one changes nothing |
| AccessPolicy.OnlyFieldWritten | AppContext.tsx:165-175 | Ids and e-mails never change; a permissions update keeps every role and a role update every permission table |
| Loading.CleanMembers | AppContext.tsx:209-263 | The kept rows are exactly the passing object rows, each with its defaults filled in |
| Loading.CleanAppend | AppContext.tsx:209-263 | Sanitising a concatenation sanitises each part in turn, keeping order |
| Loading.CleanIdempotent | AppContext.tsx:209-263 | When defaults keep a row passing and are settled by one application, sanitising a reload changes nothing |
| Loading.TableRules | AppContext.tsx:209-263 | Each table: membership iff passing, every row has the table's shape, and a reload sanitises to itself |
| Loading.CopiedTablesRules | AppContext.tsx:211-245 | Groups, attendance and exceptions keep exactly the objects with their required fields, unchanged |
| Loading.FixPlanRules | AppContext.tsx:213-219 | A plan keeps a truthy name and numeric price, discount and lesson count, else gets 'Без имени' and zeros; other fields untouched |
| Loading.PlansRules | AppContext.tsx:213-219 | Plans: membership iff an object with an id, each with the plan shape, reload stable |
| Loading.FixSubscriptionRules | AppContext.tsx:221-227 | Counter kept when numeric else 0, a truthy group kept else null; other fields untouched |
| Loading.SubscriptionsRules | AppContext.tsx:221-227 | Subscriptions: membership iff all required fields are there with numeric price and total; shape and reload stable |
| Loading.FixTransactionRules | AppContext.tsx:231-236 | A truthy description is kept, else ''; other fields untouched |
| Loading.TransactionsRules | AppContext.tsx:231-236 | Transactions: membership iff id, student, date, type and numeric amount; each has a description; reload stable |
| Loading.FixEventRules | AppContext.tsx:238-243 | The recurring flag becomes the boolean of its truthiness; other fields untouched |
| Loading.EventsRules | AppContext.tsx:238-243 | Events: membership iff id, times, title and a parsing start; the flag is boolean; reload stable |
| Loading.FixExpenseRules | AppContext.tsx:247-252 | A truthy description is kept, else 'Без описания'; other fields untouched |
| Loading.ExpensesRules | AppContext.tsx:247-252 | Expenses: membership iff id, date and numeric amount; each has a description; reload stable |
| Loading.FixStudentRules | AppContext.tsx:254-263 | Each student field keeps a truthy/numeric/array value as it came and otherwise gets its default; other fields untouched |
| Loading.FixStudentShape | AppContext.tsx:254-263 | The defaults give every student its shape |
| Loading.FixStudentIdempotent | AppContext.tsx:254-263 | A second pass of the student defaults changes nothing |
| Loading.StudentsRules | AppContext.tsx:254-263 | Students: membership iff an object with an id, each with the student shape, reload stable |
| Base.TrimOfTrimmed | components/Groups.tsx:139 | Trimming a trimmed text changes nothing |
| Base.TrimEmpty | components/Schedule.tsx:85 | A text trims to nothing exactly when it is all white space |

## Left out

- Network, authentication and persistence: the store is the tables of `Ledger.Store` plus a failure flag per call.  `fetchData` re-reads every table after a write.  The model keeps the tables in place and does not re-sort them (see below).  The notifications and the `isSaving` flag are not modelled.
- `seedDatabase` (test data on first load), and the admin's `allProfiles` load (AppContext.tsx:158-161): plain reads and inserts with no logic to prove.
- The simple one-call wrappers (`addStudent`, `updateStudent`, `addGroup`, `addScheduleEvent`, `addExpense` and the like).  They are single inserts, updates or deletes of the kind `Ledger.Store` already models.
- The reload's ordering of the tables (students and groups by name, subscriptions by purchase date, transactions and expenses newest first) is not applied to the model's tables, which keep the order rows were written in.  The one place an operation depends on that order, the subscription a mark is charged to, is taken in the reload's order (purchase date descending, AppContext.tsx:185): `Ledger.ChooseSubscription` picks, through `Ledger.NewestAssigned`, a usable subscription bought no earlier than any other of its kind.  Among subscriptions with the same purchase date it takes the first in table order, where the database promises no order at all.  Lists the screens show in table order (the finance rows, a student's subscription cards) are stated by membership, not order.
- The ECMAScript time range (TimeClip, at most 8.64e15 ms either side of the epoch) is not modelled outside `Finance`.  `Recurrence.AllVisibleEvents` still produces occurrences of an event within 52 weeks of that limit, where the source's `setDate` gives an Invalid Date and `toISOString` throws.  `AppShell.ShiftDays`, `AppShell.ShiftMonths`, `AppShell.ShiftMonthsClamped` and `AppShell.ShiftYears` never become an Invalid Date there.
- Text parsing of dates (`new Date(text)`), `toISOString`, time zones and `formatDateForLocalInput`: a stored date is a `DateValue`, and a parse is a parameter where text matters.  The journal's `YYYY-MM-DD` key of a day (`toISOString().split('T')[0]`) is not modelled, because it depends on the time zone.
- `localeCompare` is modelled as code-point order, and `toLowerCase` as a fold of the Latin and Cyrillic capitals; locale collation and full Unicode case mapping are out of scope.
- Ids from `Math.random`/`Date.now` and the store's generated ids are parameters (`subId`, `txId`, `now`).
- `constants.ts` is not part of this model: `SYSTEM_SUBSCRIPTION_PLAN_ID` is a parameter `systemId`.
- Rendering, styling, drag-and-drop gestures, pixel arithmetic, timers and concurrency between overlapping handlers.  Only the resize handler's fifteen-minute clamp is modelled.
- `parent_phone2`, `parent_email` and the joined `subscriptions`/`transactions` arrays of a student are not fields of the model's `Student`.  The model reads a student's subscriptions from the subscription table by `student_id`.
- `Loading`: rows are loosely typed values.  The typed records the screens use are casts in the source, so the model states the shape the sanitiser guarantees (the `...Shape` predicates) instead of converting rows to records.
- `StudentsScreen.GroupedForDisplay`: the relative order of two groups with the same label is not stated.  The stable sort fixes it, but the source promises nothing about it.
- `ScheduleScreen.MonthGridRules`: only the direction "every day of the current month is in the grid and flagged" is proved.  The flag compares the month number only, so a day of the same month number in another year would also be flagged, and it is not claimed that only current-month days are flagged.
- `GroupsScreen.DeleteGroupRules` and `ArchiveScreen.RestoreRules`: the per-student writes whose result the source does not check are modelled by a set `failed` of lost writes.  The order of those writes is not modelled.
- `Journal.ColumnsMeaning`: lesson counts are integers, as the store holds them.  Fractional counts are not modelled.
- `PlansScreen.SaveRules`: the new plan's `is_default` is whatever the insert gives it, and is not stated.
- `DashboardScreen.UpcomingRules`: the `isNaN` test of `upcomingEvents` always passes, because every calendar instance comes with a readable start.
- `AccessPolicy.FlagsDetermine` is stated in one direction (agreement on every key implies equality).  The other direction is immediate.
- `Recurrence.LookupException`: the contract names one exception with the key.  That it is the last one is in its definition, and the map built by `BuildExceptionMap` agrees with it.

## Findings

| source | as written | input that shows it | evidently intended | confidence | as-written member | corrected member |
|---|---|---|---|---|---|---|
| App.tsx:59-79 | The month buttons use `setMonth(getMonth() + offset)`, which keeps the date number and lets it overflow into the following month | Any instant on 31 January 2025 with offset 1 lands on 3 March 2025, so February is skipped | Move to the same date of the target month, held to that month's last day (28 February) | not executed | AppShell.JanuaryThirtyFirstSkipsFebruary | AppShell.ClampedStepRules |

The as-written month step is `AppShell.ShiftMonths`.  `AppShell.MonthStepOverflows` proves that the overflow happens for every date the target month lacks.  The corrected step is `AppShell.ShiftMonthsClamped`, and `AppShell.JanuaryThirtyFirstHeld` shows it on the same input.
