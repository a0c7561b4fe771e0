// The attendance and subscription ledger of the store: a present or absent
// mark consumes one lesson of a usable subscription, deleting a mark gives
// the lesson back, cancelling a subscription writes a pro-rated refund,
// buying one writes the payment, and a reset wipes the financial tables.
//
// The store is the class Store below: one field per table, one method per
// store call (each may fail, which the caller passes in as a flag), and one
// method per context operation built from those calls.  What each
// operation does to the tables is a function on Db values; the lemmas are
// stated about those functions.

module Ledger {
  import opened Base
  import opened Calendar
  import opened Types
  import opened Sorting

  /** A column in an update or upsert payload: omitted (keeps the stored value, null on insert) or written. */
  datatype FieldWrite<T> = Keep | Put(value: T)

  function Written<T>(w: FieldWrite<T>, stored: T): (r: T)
    ensures w.Keep? ==> r == stored
    ensures w.Put? ==> r == w.value
  {
    if w.Put? then w.value else stored
  }

  /** The tables the ledger operations read and write. */
  datatype Db = Db(
    students: seq<Student>,
    groups: seq<Group>,
    subscriptions: seq<StudentSubscription>,
    transactions: seq<FinancialTransaction>,
    attendance: seq<Attendance>,
    plans: seq<SubscriptionPlan>)

  // ---------------------------------------------------------------------
  // Table invariants.

  predicate SubscriptionIdsUnique(subs: seq<StudentSubscription>) {
    forall i, j :: 0 <= i < j < |subs| ==> subs[i].id != subs[j].id
  }

  /** A subscription's counter lies between 0 and its total (0 when the total is not positive). */
  predicate CounterInRange(s: StudentSubscription) {
    0 <= s.lessonsAttended && (s.lessonsAttended <= s.lessonsTotal || s.lessonsAttended == 0)
  }

  predicate CountersInRange(subs: seq<StudentSubscription>) {
    forall i :: 0 <= i < |subs| ==> CounterInRange(subs[i])
  }

  predicate SameKey(a: Attendance, studentId: string, date: string) {
    a.studentId == studentId && a.date == date
  }

  /** At most one mark per (student, date). */
  predicate AttendanceKeysUnique(rows: seq<Attendance>) {
    forall i, j :: 0 <= i < j < |rows| ==> !SameKey(rows[j], rows[i].studentId, rows[i].date)
  }

  predicate TransactionIdsUnique(txs: seq<FinancialTransaction>) {
    forall i, j :: 0 <= i < j < |txs| ==> txs[i].id != txs[j].id
  }

  /** The constraints the ledger keeps: unique keys and every counter in range. */
  predicate Valid(db: Db) {
    SubscriptionIdsUnique(db.subscriptions) && CountersInRange(db.subscriptions)
    && AttendanceKeysUnique(db.attendance) && TransactionIdsUnique(db.transactions)
  }

  // ---------------------------------------------------------------------
  // Lookups.

  /** `attendance.find(a => a.student_id === studentId && a.date === date)` */
  function FindAttendance(rows: seq<Attendance>, studentId: string, date: string): (r: Option<Attendance>)
    ensures r.Some? ==> r.value in rows && SameKey(r.value, studentId, date)
    ensures r.None? <==> forall i :: 0 <= i < |rows| ==> !SameKey(rows[i], studentId, date)
  {
    if rows == [] then None
    else if SameKey(rows[0], studentId, date) then Some(rows[0])
    else FindAttendance(rows[1..], studentId, date)
  }

  /** `studentSubscriptions.find(s => s.id === id)` */
  function FindSubscription(subs: seq<StudentSubscription>, id: string): Option<StudentSubscription> {
    FindBy(subs, (s: StudentSubscription) => s.id, id)
  }

  predicate HasStudent(students: seq<Student>, id: string) {
    exists i | 0 <= i < |students| :: students[i].id == id
  }

  /** The student's subscriptions with lessons left (`lessons_attended < lessons_total`), in table order. */
  function UsableOf(subs: seq<StudentSubscription>, studentId: string): (r: seq<StudentSubscription>)
    ensures forall i {:trigger r[i]} :: 0 <= i < |r| ==>
      r[i] in subs && r[i].studentId == studentId && r[i].lessonsAttended < r[i].lessonsTotal
    ensures forall i {:trigger subs[i] in r} :: (0 <= i < |subs| && subs[i].studentId == studentId
                         && subs[i].lessonsAttended < subs[i].lessonsTotal) ==> subs[i] in r
  {
    if subs == [] then []
    else
      var rest := UsableOf(subs[1..], studentId);
      assert forall i :: 1 <= i < |subs| ==> subs[i] == subs[1..][i - 1];
      if subs[0].studentId == studentId && subs[0].lessonsAttended < subs[0].lessonsTotal then [subs[0]] + rest
      else rest
  }

  /**
   * The order fetchData reads the subscriptions in, `order('purchase_date',
   * { ascending: false })`: a may come before b when it was bought no earlier.
   * A row without a readable date comes first, where Postgres puts nulls in
   * a descending order.
   */
  predicate NewerOrSame(a: StudentSubscription, b: StudentSubscription) {
    a.purchaseDate.InvalidDate? || (b.purchaseDate.At? && a.purchaseDate.ms >= b.purchaseDate.ms)
  }

  /**
   * `subs.find(s => s.assigned_group_id === group)` over the reloaded list,
   * which runs newest purchase first: a subscription assigned to the group
   * bought no earlier than any other assigned to it (the first in table order
   * among equals).
   */
  function NewestAssigned(subs: seq<StudentSubscription>, group: Option<string>): (r: Option<StudentSubscription>)
    ensures r.Some? ==> r.value in subs && r.value.assignedGroupId == group
    ensures r.Some? ==> forall i :: 0 <= i < |subs| && subs[i].assignedGroupId == group ==> NewerOrSame(r.value, subs[i])
    ensures r.None? <==> forall i :: 0 <= i < |subs| ==> subs[i].assignedGroupId != group
  {
    if subs == [] then None
    else
      var rest := NewestAssigned(subs[1..], group);
      assert forall i :: 1 <= i < |subs| ==> subs[i] == subs[1..][i - 1];
      if subs[0].assignedGroupId != group then rest
      else if rest.None? || NewerOrSame(subs[0], rest.value) then Some(subs[0])
      else rest
  }

  /**
   * The subscription a present or absent mark in group groupId is charged to:
   * the newest usable one assigned to that group, else the newest usable one
   * assigned to no group.
   */
  function ChooseSubscription(db: Db, studentId: string, groupId: string): Option<StudentSubscription> {
    if !HasStudent(db.students, studentId) then None
    else
      var usable := UsableOf(db.subscriptions, studentId);
      var inGroup := NewestAssigned(usable, Some(groupId));
      if inGroup.Some? then inGroup else NewestAssigned(usable, None)
  }

  // ---------------------------------------------------------------------
  // Row updates.

  /** `update({ lessons_attended: n }).eq('id', id)` */
  function SetCounter(subs: seq<StudentSubscription>, id: string, n: int): (r: seq<StudentSubscription>)
    ensures |r| == |subs|
    ensures forall i {:trigger r[i]} :: 0 <= i < |subs| ==>
      r[i] == (if subs[i].id == id then subs[i].(lessonsAttended := n) else subs[i])
  {
    seq(|subs|, i requires 0 <= i < |subs| => if subs[i].id == id then subs[i].(lessonsAttended := n) else subs[i])
  }

  /** An attendance payload; status, student and date are always present. */
  datatype AttendanceWrite = AttendanceWrite(
    studentId: string,
    date: string,
    status: AttendanceStatus,
    grade: FieldWrite<Option<int>>,
    link: FieldWrite<Option<string>>)

  /** The stored row after the payload is written over it. */
  function Merge(row: Attendance, w: AttendanceWrite): Attendance {
    Attendance(row.studentId, row.date, w.status, Written(w.grade, row.grade), Written(w.link, row.subscriptionId))
  }

  /** The row the payload inserts: omitted columns are null. */
  function NewRow(w: AttendanceWrite): Attendance {
    Attendance(w.studentId, w.date, w.status, Written(w.grade, None), Written(w.link, None))
  }

  /** `upsert(record)` on the (student_id, date) key. */
  function Upsert(rows: seq<Attendance>, w: AttendanceWrite): (r: seq<Attendance>)
  {
    if FindAttendance(rows, w.studentId, w.date).Some? then MergeInto(rows, w)
    else rows + [NewRow(w)]
  }

  /** Every row with the payload's key, merged with the payload. */
  function MergeInto(rows: seq<Attendance>, w: AttendanceWrite): (r: seq<Attendance>)
    ensures |r| == |rows|
    ensures forall i {:trigger r[i]} :: 0 <= i < |rows| ==>
      r[i] == if SameKey(rows[i], w.studentId, w.date) then Merge(rows[i], w) else rows[i]
  {
    seq(|rows|, i requires 0 <= i < |rows| => if SameKey(rows[i], w.studentId, w.date) then Merge(rows[i], w) else rows[i])
  }

  /** `delete().eq('student_id', studentId).eq('date', date)` */
  function RemoveAttendance(rows: seq<Attendance>, studentId: string, date: string): (r: seq<Attendance>)
    ensures |r| <= |rows|
    ensures forall i {:trigger r[i]} :: 0 <= i < |r| ==> r[i] in rows && !SameKey(r[i], studentId, date)
    ensures forall i {:trigger rows[i] in r} :: 0 <= i < |rows| && !SameKey(rows[i], studentId, date) ==> rows[i] in r
  {
    if rows == [] then []
    else
      var rest := RemoveAttendance(rows[1..], studentId, date);
      assert forall i :: 1 <= i < |rows| ==> rows[i] == rows[1..][i - 1];
      if SameKey(rows[0], studentId, date) then rest else [rows[0]] + rest
  }

  /** `delete().eq('id', id)` on the subscriptions. */
  function RemoveSubscription(subs: seq<StudentSubscription>, id: string): (r: seq<StudentSubscription>)
    ensures |r| <= |subs|
    ensures forall i {:trigger r[i]} :: 0 <= i < |r| ==> r[i] in subs && r[i].id != id
    ensures forall i {:trigger subs[i] in r} :: 0 <= i < |subs| && subs[i].id != id ==> subs[i] in r
  {
    if subs == [] then []
    else
      var rest := RemoveSubscription(subs[1..], id);
      assert forall i :: 1 <= i < |subs| ==> subs[i] == subs[1..][i - 1];
      if subs[0].id == id then rest else [subs[0]] + rest
  }

  function HasSubscriptionId(subs: seq<StudentSubscription>, id: string): bool {
    FindSubscription(subs, id).Some?
  }

  function HasTransactionId(txs: seq<FinancialTransaction>, id: string): bool {
    exists i | 0 <= i < |txs| :: txs[i].id == id
  }

  // ---------------------------------------------------------------------
  // setAttendanceRecord.

  /** What setAttendanceRecord decides before writing: the subscription to charge, and the payload. */
  datatype AttendancePlan = AttendancePlan(charge: Option<StudentSubscription>, write: AttendanceWrite)

  /**
   * Present and absent marks are charged to the chosen subscription unless the
   * stored mark is already linked, in which case the payload carries that link;
   * an excused payload is written as given.
   */
  function PlanAttendance(db: Db, record: AttendanceWrite, groupId: string): AttendancePlan {
    if record.status == Excused then AttendancePlan(None, record)
    else
      var existing := FindAttendance(db.attendance, record.studentId, record.date);
      var linked := existing.Some? && Truthy(existing.value.subscriptionId);
      var sub := ChooseSubscription(db, record.studentId, groupId);
      if sub.Some? && !linked then AttendancePlan(sub, record.(link := Put(Some(sub.value.id))))
      else if linked then AttendancePlan(None, record.(link := Put(existing.value.subscriptionId)))
      else AttendancePlan(None, record)
  }

  /** The tables after setAttendanceRecord, given which of its two store calls fail. */
  function SetAttendance(db: Db, record: AttendanceWrite, groupId: string, failUpdate: bool, failUpsert: bool): Db {
    ApplyPlan(db, PlanAttendance(db, record, groupId), failUpdate, failUpsert)
  }

  /** The counter increment, then the upsert; a failed increment stops before the upsert. */
  function ApplyPlan(db: Db, plan: AttendancePlan, failUpdate: bool, failUpsert: bool): Db {
    if plan.charge.Some? && failUpdate then db
    else
      var charged :=
        if plan.charge.Some?
        then db.(subscriptions := SetCounter(db.subscriptions, plan.charge.value.id, plan.charge.value.lessonsAttended + 1))
        else db;
      if failUpsert then charged else charged.(attendance := Upsert(charged.attendance, plan.write))
  }

  // ---------------------------------------------------------------------
  // deleteAttendanceRecord.

  function Max0(n: int): (r: int)
    ensures r >= 0 && r >= n && (r == 0 || r == n)
  {
    if n > 0 then n else 0
  }

  /** The subscription the stored mark is linked to, when the link is set and names a known subscription. */
  function LinkedSubscription(db: Db, studentId: string, date: string): Option<StudentSubscription> {
    var existing := FindAttendance(db.attendance, studentId, date);
    if existing.Some? && Truthy(existing.value.subscriptionId)
    then FindSubscription(db.subscriptions, existing.value.subscriptionId.value)
    else None
  }

  /** The tables after deleteAttendanceRecord, given which of its two store calls fail. */
  function DeleteAttendance(db: Db, studentId: string, date: string, failUpdate: bool, failDelete: bool): Db {
    var sub := LinkedSubscription(db, studentId, date);
    if sub.Some? && failUpdate then db
    else
      var returned :=
        if sub.Some?
        then db.(subscriptions := SetCounter(db.subscriptions, sub.value.id, Max0(sub.value.lessonsAttended - 1)))
        else db;
      if failDelete then returned else returned.(attendance := RemoveAttendance(returned.attendance, studentId, date))
  }

  // ---------------------------------------------------------------------
  // addStudentSubscription.

  const PaymentDescription: string := "Оплата абонемента"

  /** The row inserted for a draft: the store supplies id, purchase date and a zero counter. */
  function NewSubscription(draft: SubscriptionDraft, id: string, now: int): StudentSubscription {
    StudentSubscription(id, draft.studentId, draft.planId, At(now), draft.pricePaid, draft.lessonsTotal, 0,
                        draft.assignedGroupId)
  }

  function PaymentFor(draft: SubscriptionDraft, subId: string, txId: string, now: int): FinancialTransaction {
    FinancialTransaction(txId, draft.studentId, At(now), Payment, draft.pricePaid, PaymentDescription, Some(subId))
  }

  /** The subscription insert fails on a store error or a taken id; a failed payment insert is only reported. */
  function AddSubscription(db: Db, draft: SubscriptionDraft, subId: string, txId: string, now: int,
                           failSub: bool, failTx: bool): (Db, Option<StudentSubscription>)
  {
    if failSub || HasSubscriptionId(db.subscriptions, subId) then (db, None)
    else
      var sub := NewSubscription(draft, subId, now);
      var db1 := db.(subscriptions := db.subscriptions + [sub]);
      if failTx || HasTransactionId(db.transactions, txId) then (db1, Some(sub))
      else (db1.(transactions := db1.transactions + [PaymentFor(draft, subId, txId, now)]), Some(sub))
  }

  // ---------------------------------------------------------------------
  // refundToBalanceAndCancelSubscription / processCashRefundAndCancelSubscription.

  const ToBalanceMarker: string := "Возврат на баланс"

  /** The refund description; `toBalance` picks the refund-to-balance variant over the cash one. */
  function RefundDescription(toBalance: bool, subId: string): string {
    (if toBalance then ToBalanceMarker else "Возврат средств наличными")
    + " (Абонемент #" + Take(subId, 4) + ")"
  }

  function RefundFor(sub: StudentSubscription, txId: string, now: int, toBalance: bool): FinancialTransaction {
    FinancialTransaction(txId, sub.studentId, At(now), Refund, RemainingValue(sub),
                         RefundDescription(toBalance, sub.id), Some(sub.id))
  }

  /**
   * Both cancel variants: an unknown id changes nothing; otherwise the refund
   * transaction is inserted and the subscription deleted, each store call on
   * its own (a failure of one does not stop the other).
   */
  function CancelSubscription(db: Db, subId: string, txId: string, now: int, toBalance: bool,
                              failTx: bool, failDelete: bool): Db
  {
    var sub := FindSubscription(db.subscriptions, subId);
    if sub.None? then db
    else
      var db1 :=
        if failTx || HasTransactionId(db.transactions, txId) then db
        else db.(transactions := db.transactions + [RefundFor(sub.value, txId, now, toBalance)]);
      if failDelete then db1 else db1.(subscriptions := RemoveSubscription(db1.subscriptions, subId))
  }

  // ---------------------------------------------------------------------
  // updateSubscriptionPlan.

  datatype PlanUpdate = PlanUpdate(
    name: FieldWrite<string>,
    price: FieldWrite<Money>,
    discount: FieldWrite<Money>,
    lessonCount: FieldWrite<int>,
    isDefault: FieldWrite<bool>)

  function ApplyPlanUpdate(p: SubscriptionPlan, u: PlanUpdate): SubscriptionPlan {
    SubscriptionPlan(p.id, Written(u.name, p.name), Written(u.price, p.price), Written(u.discount, p.discount),
                     Written(u.lessonCount, p.lessonCount), Written(u.isDefault, p.isDefault))
  }

  /** `update({ is_default: false }).neq('id', id)` */
  function ClearOtherDefaults(plans: seq<SubscriptionPlan>, id: string): (r: seq<SubscriptionPlan>)
    ensures |r| == |plans|
    ensures forall i {:trigger r[i]} :: 0 <= i < |plans| ==>
      r[i] == (if plans[i].id != id then plans[i].(isDefault := false) else plans[i])
  {
    seq(|plans|, i requires 0 <= i < |plans| => if plans[i].id != id then plans[i].(isDefault := false) else plans[i])
  }

  /** `update(updates).eq('id', id)` */
  function UpdatePlanRows(plans: seq<SubscriptionPlan>, id: string, u: PlanUpdate): (r: seq<SubscriptionPlan>)
    ensures |r| == |plans|
    ensures forall i {:trigger r[i]} :: 0 <= i < |plans| ==>
      r[i] == (if plans[i].id == id then ApplyPlanUpdate(plans[i], u) else plans[i])
  {
    seq(|plans|, i requires 0 <= i < |plans| => if plans[i].id == id then ApplyPlanUpdate(plans[i], u) else plans[i])
  }

  /** `subscriptionPlans.find(p => p.id === id)` */
  function FindPlan(plans: seq<SubscriptionPlan>, id: string): Option<SubscriptionPlan> {
    FindBy(plans, (p: SubscriptionPlan) => p.id, id)
  }

  /**
   * Making a plan the default first clears the flag on every other plan (its
   * error is ignored); the update of the plan itself fails on a store error or
   * when no plan has that id.
   */
  function UpdatePlan(db: Db, id: string, u: PlanUpdate, failUnset: bool, failUpdate: bool): (Db, Option<SubscriptionPlan>) {
    var db1 := if u.isDefault == Put(true) && !failUnset then db.(plans := ClearOtherDefaults(db.plans, id)) else db;
    var target := FindPlan(db1.plans, id);
    if failUpdate || target.None? then (db1, None)
    else (db1.(plans := UpdatePlanRows(db1.plans, id, u)), Some(ApplyPlanUpdate(target.value, u)))
  }

  // ---------------------------------------------------------------------
  // clearStudentFinancialData.

  /** `delete().neq('id', keepId)` on the transactions: what is left is the filter on the kept id. */
  function TransactionsWithId(txs: seq<FinancialTransaction>, id: string): (r: seq<FinancialTransaction>)
    ensures forall i {:trigger r[i]} :: 0 <= i < |r| ==> r[i] in txs && r[i].id == id
    ensures forall i {:trigger txs[i] in r} :: 0 <= i < |txs| && txs[i].id == id ==> txs[i] in r
  {
    Filter(txs, (t: FinancialTransaction) => t.id == id)
  }

  /** `delete().neq('id', keepId)` on the subscriptions. */
  function SubscriptionsWithId(subs: seq<StudentSubscription>, id: string): (r: seq<StudentSubscription>)
    ensures forall i {:trigger r[i]} :: 0 <= i < |r| ==> r[i] in subs && r[i].id == id
    ensures forall i {:trigger subs[i] in r} :: 0 <= i < |subs| && subs[i].id == id ==> subs[i] in r
  {
    Filter(subs, (s: StudentSubscription) => s.id == id)
  }

  /** `delete().neq('student_id', keepId)` on the marks. */
  function AttendanceOfStudent(rows: seq<Attendance>, studentId: string): (r: seq<Attendance>)
    ensures forall i {:trigger r[i]} :: 0 <= i < |r| ==> r[i] in rows && r[i].studentId == studentId
    ensures forall i {:trigger rows[i] in r} :: 0 <= i < |rows| && rows[i].studentId == studentId ==> rows[i] in r
  {
    Filter(rows, (a: Attendance) => a.studentId == studentId)
  }

  /** `update({ balance: 0 }).neq('id', keepId)` */
  function ZeroBalances(students: seq<Student>, keepId: string): (r: seq<Student>)
    ensures |r| == |students|
    ensures forall i {:trigger r[i]} :: 0 <= i < |students| ==>
      r[i] == (if students[i].id != keepId then students[i].(balance := 0.0) else students[i])
  {
    seq(|students|, i requires 0 <= i < |students| =>
      if students[i].id != keepId then students[i].(balance := 0.0) else students[i])
  }

  /**
   * The four deletes/updates of clearStudentFinancialData, each filtered by
   * `neq(…, systemId)` and each on its own (errors are ignored).
   */
  function ClearFinancialData(db: Db, systemId: string, failTx: bool, failSubs: bool, failAttendance: bool,
                              failBalances: bool): Db
  {
    var db1 := if failTx then db else db.(transactions := TransactionsWithId(db.transactions, systemId));
    var db2 := if failSubs then db1 else db1.(subscriptions := SubscriptionsWithId(db1.subscriptions, systemId));
    var db3 := if failAttendance then db2 else db2.(attendance := AttendanceOfStudent(db2.attendance, systemId));
    if failBalances then db3 else db3.(students := ZeroBalances(db3.students, systemId))
  }

  // ---------------------------------------------------------------------
  // The store.

  class Store {
    var students: seq<Student>
    var groups: seq<Group>
    var subscriptions: seq<StudentSubscription>
    var transactions: seq<FinancialTransaction>
    var attendance: seq<Attendance>
    var plans: seq<SubscriptionPlan>

    function State(): Db
      reads this
    {
      Db(students, groups, subscriptions, transactions, attendance, plans)
    }

    constructor(db: Db)
      ensures State() == db
    {
      students := db.students;
      groups := db.groups;
      subscriptions := db.subscriptions;
      transactions := db.transactions;
      attendance := db.attendance;
      plans := db.plans;
    }

    // One method per store call; `fail` stands for the error the call may return.

    method UpdateAttended(id: string, n: int, fail: bool) returns (ok: bool)
      modifies this
      ensures ok == !fail
      ensures State() == if fail then old(State()) else old(State()).(subscriptions := SetCounter(old(subscriptions), id, n))
    {
      ok := !fail;
      if ok {
        subscriptions := SetCounter(subscriptions, id, n);
      }
    }

    method UpsertAttendance(w: AttendanceWrite, fail: bool) returns (ok: bool)
      modifies this
      ensures ok == !fail
      ensures State() == if fail then old(State()) else old(State()).(attendance := Upsert(old(attendance), w))
    {
      ok := !fail;
      if ok {
        attendance := Upsert(attendance, w);
      }
    }

    method DeleteAttendanceRows(studentId: string, date: string, fail: bool) returns (ok: bool)
      modifies this
      ensures ok == !fail
      ensures State() == if fail then old(State())
                         else old(State()).(attendance := RemoveAttendance(old(attendance), studentId, date))
    {
      ok := !fail;
      if ok {
        attendance := RemoveAttendance(attendance, studentId, date);
      }
    }

    /** Inserting a row whose id is taken fails like any other store error. */
    method InsertSubscription(sub: StudentSubscription, fail: bool) returns (ok: bool)
      modifies this
      ensures ok == !(fail || HasSubscriptionId(old(subscriptions), sub.id))
      ensures State() == if ok then old(State()).(subscriptions := old(subscriptions) + [sub]) else old(State())
    {
      ok := !(fail || HasSubscriptionId(subscriptions, sub.id));
      if ok {
        subscriptions := subscriptions + [sub];
      }
    }

    method InsertTransaction(tx: FinancialTransaction, fail: bool) returns (ok: bool)
      modifies this
      ensures ok == !(fail || HasTransactionId(old(transactions), tx.id))
      ensures State() == if ok then old(State()).(transactions := old(transactions) + [tx]) else old(State())
    {
      ok := !(fail || HasTransactionId(transactions, tx.id));
      if ok {
        transactions := transactions + [tx];
      }
    }

    method DeleteSubscriptionRow(id: string, fail: bool) returns (ok: bool)
      modifies this
      ensures ok == !fail
      ensures State() == if fail then old(State())
                         else old(State()).(subscriptions := RemoveSubscription(old(subscriptions), id))
    {
      ok := !fail;
      if ok {
        subscriptions := RemoveSubscription(subscriptions, id);
      }
    }

    method ClearDefaultsExcept(id: string, fail: bool) returns (ok: bool)
      modifies this
      ensures ok == !fail
      ensures State() == if fail then old(State()) else old(State()).(plans := ClearOtherDefaults(old(plans), id))
    {
      ok := !fail;
      if ok {
        plans := ClearOtherDefaults(plans, id);
      }
    }

    /** `update(updates).eq('id', id).select().single()`: an error, or no such row, gives null. */
    method UpdatePlanRow(id: string, u: PlanUpdate, fail: bool) returns (r: Option<SubscriptionPlan>)
      modifies this
      ensures var target := FindPlan(old(plans), id);
        r == (if fail || target.None? then None else Some(ApplyPlanUpdate(target.value, u)))
      ensures State() == if r.None? then old(State()) else old(State()).(plans := UpdatePlanRows(old(plans), id, u))
    {
      var target := FindPlan(plans, id);
      if fail || target.None? {
        return None;
      }
      plans := UpdatePlanRows(plans, id, u);
      r := Some(ApplyPlanUpdate(target.value, u));
    }

    method DeleteTransactionsExcept(keepId: string, fail: bool)
      modifies this
      ensures State() == if fail then old(State())
                         else old(State()).(transactions := TransactionsWithId(old(transactions), keepId))
    {
      if !fail {
        transactions := TransactionsWithId(transactions, keepId);
      }
    }

    method DeleteSubscriptionsExcept(keepId: string, fail: bool)
      modifies this
      ensures State() == if fail then old(State())
                         else old(State()).(subscriptions := SubscriptionsWithId(old(subscriptions), keepId))
    {
      if !fail {
        subscriptions := SubscriptionsWithId(subscriptions, keepId);
      }
    }

    method DeleteAttendanceExcept(keepStudentId: string, fail: bool)
      modifies this
      ensures State() == if fail then old(State())
                         else old(State()).(attendance := AttendanceOfStudent(old(attendance), keepStudentId))
    {
      if !fail {
        attendance := AttendanceOfStudent(attendance, keepStudentId);
      }
    }

    method ZeroBalancesExcept(keepId: string, fail: bool)
      modifies this
      ensures State() == if fail then old(State()) else old(State()).(students := ZeroBalances(old(students), keepId))
    {
      if !fail {
        students := ZeroBalances(students, keepId);
      }
    }

    // The context operations.

    /** setAttendanceRecord: returns false when it reported an error. */
    method SetAttendanceRecord(record: AttendanceWrite, groupId: string, failUpdate: bool, failUpsert: bool)
      returns (ok: bool)
      modifies this
      ensures State() == SetAttendance(old(State()), record, groupId, failUpdate, failUpsert)
      ensures ok == !((PlanAttendance(old(State()), record, groupId).charge.Some? && failUpdate) || failUpsert)
    {
      ghost var plan := PlanAttendance(State(), record, groupId);
      var payload := record;
      if record.status == Present || record.status == Absent {
        var existing := FindAttendance(attendance, record.studentId, record.date);
        var subToUse := ChooseSubscription(State(), record.studentId, groupId);
        var linked := existing.Some? && Truthy(existing.value.subscriptionId);
        if subToUse.Some? && !linked {
          assert plan.charge == subToUse;
          ok := UpdateAttended(subToUse.value.id, subToUse.value.lessonsAttended + 1, failUpdate);
          if !ok {
            return;
          }
          payload := payload.(link := Put(Some(subToUse.value.id)));
        } else if linked {
          payload := payload.(link := Put(existing.value.subscriptionId));
        }
      }
      assert payload == plan.write;
      ok := UpsertAttendance(payload, failUpsert);
    }

    /** deleteAttendanceRecord: returns false when it reported an error. */
    method DeleteAttendanceRecord(studentId: string, date: string, failUpdate: bool, failDelete: bool)
      returns (ok: bool)
      modifies this
      ensures State() == DeleteAttendance(old(State()), studentId, date, failUpdate, failDelete)
      ensures ok == !((LinkedSubscription(old(State()), studentId, date).Some? && failUpdate) || failDelete)
    {
      var existing := FindAttendance(attendance, studentId, date);
      if existing.Some? && Truthy(existing.value.subscriptionId) {
        var sub := FindSubscription(subscriptions, existing.value.subscriptionId.value);
        if sub.Some? {
          var newCount := Max0(sub.value.lessonsAttended - 1);
          ok := UpdateAttended(sub.value.id, newCount, failUpdate);
          if !ok {
            return;
          }
        }
      }
      ok := DeleteAttendanceRows(studentId, date, failDelete);
    }

    /** addStudentSubscription: the new subscription, or None when its insert failed. */
    method AddStudentSubscription(draft: SubscriptionDraft, subId: string, txId: string, now: int,
                                  failSub: bool, failTx: bool)
      returns (r: Option<StudentSubscription>)
      modifies this
      ensures (State(), r) == AddSubscription(old(State()), draft, subId, txId, now, failSub, failTx)
    {
      var newSub := NewSubscription(draft, subId, now);
      var ok := InsertSubscription(newSub, failSub);
      if !ok {
        return None;
      }
      var txOk := InsertTransaction(PaymentFor(draft, newSub.id, txId, now), failTx);
      r := Some(newSub);
    }

    method RefundAndCancel(subscriptionId: string, txId: string, now: int, toBalance: bool,
                           failTx: bool, failDelete: bool)
      modifies this
      ensures State() == CancelSubscription(old(State()), subscriptionId, txId, now, toBalance, failTx, failDelete)
    {
      var sub := FindSubscription(subscriptions, subscriptionId);
      if sub.None? {
        return;
      }
      var txOk := InsertTransaction(RefundFor(sub.value, txId, now, toBalance), failTx);
      var deleted := DeleteSubscriptionRow(subscriptionId, failDelete);
    }

    /** refundToBalanceAndCancelSubscription */
    method RefundToBalanceAndCancelSubscription(subscriptionId: string, txId: string, now: int,
                                                failTx: bool, failDelete: bool)
      modifies this
      ensures State() == CancelSubscription(old(State()), subscriptionId, txId, now, true, failTx, failDelete)
    {
      RefundAndCancel(subscriptionId, txId, now, true, failTx, failDelete);
    }

    /** processCashRefundAndCancelSubscription */
    method ProcessCashRefundAndCancelSubscription(subscriptionId: string, txId: string, now: int,
                                                  failTx: bool, failDelete: bool)
      modifies this
      ensures State() == CancelSubscription(old(State()), subscriptionId, txId, now, false, failTx, failDelete)
    {
      RefundAndCancel(subscriptionId, txId, now, false, failTx, failDelete);
    }

    /** updateSubscriptionPlan */
    method UpdateSubscriptionPlan(id: string, u: PlanUpdate, failUnset: bool, failUpdate: bool)
      returns (r: Option<SubscriptionPlan>)
      modifies this
      ensures (State(), r) == UpdatePlan(old(State()), id, u, failUnset, failUpdate)
    {
      if u.isDefault == Put(true) {
        var unset := ClearDefaultsExcept(id, failUnset);
      }
      r := UpdatePlanRow(id, u, failUpdate);
    }

    /** clearStudentFinancialData */
    method ClearStudentFinancialData(systemId: string, failTx: bool, failSubs: bool, failAttendance: bool,
                                     failBalances: bool)
      modifies this
      ensures State() == ClearFinancialData(old(State()), systemId, failTx, failSubs, failAttendance, failBalances)
    {
      DeleteTransactionsExcept(systemId, failTx);
      DeleteSubscriptionsExcept(systemId, failSubs);
      DeleteAttendanceExcept(systemId, failAttendance);
      ZeroBalancesExcept(systemId, failBalances);
    }
  }
}
