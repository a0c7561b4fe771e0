// The student finance history screen: every transaction of one student and
// every present/absent lesson, replayed in date order.  Each shown entry
// carries the "balance after" it: the credit balance at that point plus the
// value still held in subscriptions at that date.
//
// Text dates of attendance rows go through `parse` (the Date constructor,
// which this model does not open up); transaction and purchase dates are
// already parsed values.

module History {
  import opened Base
  import opened Calendar
  import opened Types
  import opened Sorting
  import Ledger
  import LedgerProperties

  /** One dated entry of the replay: a transaction or a present/absent mark, at its instant. */
  datatype Entry = TxEntry(tx: FinancialTransaction, at: int) | MarkEntry(mark: Attendance, at: int)

  function EntryTime(e: Entry): int { e.at }

  // ---------------------------------------------------------------------
  // Assembling the timeline.

  /** The student's transactions with a valid date, in table order. */
  function TxEntries(txs: seq<FinancialTransaction>, studentId: string): seq<Entry> {
    if txs == [] then []
    else
      var t := txs[|txs| - 1];
      TxEntries(txs[..|txs| - 1], studentId)
      + (if t.studentId == studentId && t.date.At? then [TxEntry(t, t.date.ms)] else [])
  }

  predicate Charged(m: Attendance) {
    m.status == Present || m.status == Absent
  }

  /** The student's present and absent marks whose date parses, in table order. */
  function MarkEntries(marks: seq<Attendance>, studentId: string, parse: string -> DateValue): seq<Entry> {
    if marks == [] then []
    else
      var m := marks[|marks| - 1];
      MarkEntries(marks[..|marks| - 1], studentId, parse)
      + (if m.studentId == studentId && Charged(m) && parse(m.date).At? then [MarkEntry(m, parse(m.date).ms)] else [])
  }

  /** allEvents: both kinds of entry, sorted by date (a stable sort). */
  function Timeline(txs: seq<FinancialTransaction>, marks: seq<Attendance>, studentId: string,
                    parse: string -> DateValue): seq<Entry>
  {
    SortByNumber(TxEntries(txs, studentId) + MarkEntries(marks, studentId, parse), EntryTime)
  }

  predicate IsTxEntry(e: Entry, txs: seq<FinancialTransaction>, studentId: string) {
    e.TxEntry? && e.tx in txs && e.tx.studentId == studentId && e.tx.date == At(e.at)
  }

  predicate IsMarkEntry(e: Entry, marks: seq<Attendance>, studentId: string, parse: string -> DateValue) {
    e.MarkEntry? && e.mark in marks && e.mark.studentId == studentId && Charged(e.mark)
    && parse(e.mark.date) == At(e.at)
  }

  lemma {:induction false} TxEntriesMembers(txs: seq<FinancialTransaction>, studentId: string, e: Entry)
    ensures e in TxEntries(txs, studentId) <==> IsTxEntry(e, txs, studentId)
    decreases |txs|
  {
    if txs != [] {
      var init := txs[..|txs| - 1];
      TxEntriesMembers(init, studentId, e);
      assert txs == init + [txs[|txs| - 1]];
    }
  }

  lemma {:induction false} MarkEntriesMembers(marks: seq<Attendance>, studentId: string, parse: string -> DateValue, e: Entry)
    ensures e in MarkEntries(marks, studentId, parse) <==> IsMarkEntry(e, marks, studentId, parse)
    decreases |marks|
  {
    if marks != [] {
      var init := marks[..|marks| - 1];
      MarkEntriesMembers(init, studentId, parse, e);
      assert marks == init + [marks[|marks| - 1]];
    }
  }

  /**
   * The timeline holds exactly the student's transactions with a valid date and
   * the student's present/absent marks whose date parses, each at its own date.
   */
  lemma TimelineMembers(txs: seq<FinancialTransaction>, marks: seq<Attendance>, studentId: string,
                        parse: string -> DateValue, e: Entry)
    ensures e in Timeline(txs, marks, studentId, parse)
        <==> IsTxEntry(e, txs, studentId) || IsMarkEntry(e, marks, studentId, parse)
  {
    var all := TxEntries(txs, studentId) + MarkEntries(marks, studentId, parse);
    SortByMembers(all, ByNumber(EntryTime), e);
    TxEntriesMembers(txs, studentId, e);
    MarkEntriesMembers(marks, studentId, parse, e);
  }

  /** The timeline runs oldest first. */
  lemma TimelineSorted(txs: seq<FinancialTransaction>, marks: seq<Attendance>, studentId: string,
                       parse: string -> DateValue)
    ensures forall i, j :: 0 <= i < j < |Timeline(txs, marks, studentId, parse)| ==>
      Timeline(txs, marks, studentId, parse)[i].at <= Timeline(txs, marks, studentId, parse)[j].at
  {
    SortByNumberSorted(TxEntries(txs, studentId) + MarkEntries(marks, studentId, parse), EntryTime);
  }

  // ---------------------------------------------------------------------
  // The credit balance.

  /**
   * netCreditEffect of one transaction: a debit takes the amount off, a
   * correction and a refund to the balance add it, anything else leaves the
   * credit balance alone.
   */
  function CreditEffect(tx: FinancialTransaction): Money {
    if tx.kind == Debit then -tx.amount
    else if tx.kind == Correction then tx.amount
    else if tx.kind == Refund && Contains(tx.description, Ledger.ToBalanceMarker) then tx.amount
    else 0.0
  }

  function EntryEffect(e: Entry): Money {
    if e.TxEntry? then CreditEffect(e.tx) else 0.0
  }

  /** The summed credit effect of a run of entries. */
  function NetEffect(es: seq<Entry>): Money {
    if es == [] then 0.0 else NetEffect(es[..|es| - 1]) + EntryEffect(es[|es| - 1])
  }

  /** The credit effect of two runs is the sum of their effects. */
  lemma {:induction false} NetEffectAppend(a: seq<Entry>, c: seq<Entry>)
    ensures NetEffect(a + c) == NetEffect(a) + NetEffect(c)
    decreases |c|
  {
    if c != [] {
      var init := c[..|c| - 1];
      assert (a + c)[..|a + c| - 1] == a + init;
      assert (a + c)[|a + c| - 1] == c[|c| - 1];
      NetEffectAppend(a, init);
      calc {
        NetEffect(a + c);
        NetEffect(a + init) + EntryEffect(c[|c| - 1]);
        NetEffect(a) + NetEffect(init) + EntryEffect(c[|c| - 1]);
        NetEffect(a) + NetEffect(c);
      }
    } else {
      assert a + c == a;
    }
  }

  /**
   * What the ledger writes is credited as the history expects: a refund to the
   * balance adds the refunded remaining value, a cash refund and a payment add
   * nothing.
   */
  lemma LedgerWritesCredit(sub: StudentSubscription, draft: SubscriptionDraft, subId: string, txId: string,
                           now: int, toBalance: bool)
    ensures CreditEffect(Ledger.RefundFor(sub, txId, now, toBalance))
         == if toBalance then RemainingValue(sub) else 0.0
    ensures CreditEffect(Ledger.PaymentFor(draft, subId, txId, now)) == 0.0
  {
    if toBalance {
      LedgerProperties.BalanceRefundCarriesMarker(sub.id);
    } else {
      LedgerProperties.CashRefundLacksMarker(sub.id);
    }
  }

  // ---------------------------------------------------------------------
  // The value held in subscriptions as of a date.

  /**
   * What the replay reads besides the timeline: the stored balance, the
   * student's subscriptions, transactions and attendance (every status), the
   * plans, and the date parser.
   */
  datatype Books = Books(
    balance: Money,
    subs: seq<StudentSubscription>,
    txs: seq<FinancialTransaction>,
    marks: seq<Attendance>,
    plans: seq<SubscriptionPlan>,
    parse: string -> DateValue)

  /** An unparseable purchase date compares false, so it never counts as later. */
  predicate PurchasedAfter(sub: StudentSubscription, at: int) {
    sub.purchaseDate.At? && sub.purchaseDate.ms > at
  }

  predicate RefundsBy(tx: FinancialTransaction, subId: string, at: int) {
    tx.subscriptionId == Some(subId) && tx.kind == Refund && tx.date.At? && tx.date.ms <= at
  }

  predicate RefundedBy(txs: seq<FinancialTransaction>, subId: string, at: int) {
    exists i | 0 <= i < |txs| :: RefundsBy(txs[i], subId, at)
  }

  predicate UsesBy(m: Attendance, subId: string, at: int, parse: string -> DateValue) {
    m.subscriptionId == Some(subId) && parse(m.date).At? && parse(m.date).ms <= at
  }

  /** lessonsUsed: the attendance rows linked to the subscription dated on or before `at`. */
  function LessonsUsed(marks: seq<Attendance>, subId: string, at: int, parse: string -> DateValue): nat {
    if marks == [] then 0
    else LessonsUsed(marks[..|marks| - 1], subId, at, parse)
         + (if UsesBy(marks[|marks| - 1], subId, at, parse) then 1 else 0)
  }

  /** A later date never counts fewer used lessons. */
  lemma {:induction false} LessonsUsedMonotone(marks: seq<Attendance>, subId: string, at: int, later: int,
                                               parse: string -> DateValue)
    requires at <= later
    ensures LessonsUsed(marks, subId, at, parse) <= LessonsUsed(marks, subId, later, parse)
    decreases |marks|
  {
    if marks != [] {
      LessonsUsedMonotone(marks[..|marks| - 1], subId, at, later, parse);
    }
  }

  /** The value one subscription still holds as of `at`. */
  function ValueAt(b: Books, sub: StudentSubscription, at: int): Money {
    if PurchasedAfter(sub, at) || RefundedBy(b.txs, sub.id, at) then 0.0
    else
      var remaining := sub.lessonsTotal - LessonsUsed(b.marks, sub.id, at, b.parse);
      if remaining > 0 && sub.lessonsTotal > 0 then remaining as real * (sub.pricePaid / sub.lessonsTotal as real)
      else 0.0
  }

  /** subscriptionsValueAfterEvent over a run of subscriptions. */
  function SubsValue(b: Books, subs: seq<StudentSubscription>, at: int): Money {
    if subs == [] then 0.0 else SubsValue(b, subs[..|subs| - 1], at) + ValueAt(b, subs[|subs| - 1], at)
  }

  /**
   * A subscription held at `at` is worth its remaining value with the lessons
   * linked so far as the attended count; one bought later, refunded by then
   * or used up is worth nothing.
   */
  lemma ValueAtRemaining(b: Books, sub: StudentSubscription, at: int)
    ensures var used := LessonsUsed(b.marks, sub.id, at, b.parse);
      ValueAt(b, sub, at)
      == if PurchasedAfter(sub, at) || RefundedBy(b.txs, sub.id, at) || used >= sub.lessonsTotal then 0.0
         else RemainingValue(sub.(lessonsAttended := used))
  {
  }

  /** With a non-negative price, a subscription is worth between nothing and its price. */
  lemma ValueAtBounds(b: Books, sub: StudentSubscription, at: int)
    requires sub.pricePaid >= 0.0
    ensures 0.0 <= ValueAt(b, sub, at) <= sub.pricePaid
  {
    var used := LessonsUsed(b.marks, sub.id, at, b.parse);
    ValueAtRemaining(b, sub, at);
    if !(PurchasedAfter(sub, at) || RefundedBy(b.txs, sub.id, at) || used >= sub.lessonsTotal) {
      RemainingValueBounds(sub.(lessonsAttended := used));
    }
  }

  function PricesPaid(subs: seq<StudentSubscription>): Money {
    if subs == [] then 0.0 else PricesPaid(subs[..|subs| - 1]) + subs[|subs| - 1].pricePaid
  }

  /** With non-negative prices, subscriptions are worth between nothing and the sum paid for them. */
  lemma {:induction false} SubsValueBounds(b: Books, subs: seq<StudentSubscription>, at: int)
    requires forall i :: 0 <= i < |subs| ==> subs[i].pricePaid >= 0.0
    ensures 0.0 <= SubsValue(b, subs, at) <= PricesPaid(subs)
    decreases |subs|
  {
    if subs != [] {
      SubsValueBounds(b, subs[..|subs| - 1], at);
      ValueAtBounds(b, subs[|subs| - 1], at);
    }
  }

  /** Once a refund of the subscription is dated, it is worth nothing from then on. */
  lemma RefundedStaysWorthless(b: Books, sub: StudentSubscription, at: int, later: int)
    requires RefundedBy(b.txs, sub.id, at) && at <= later
    ensures ValueAt(b, sub, later) == 0.0
  {
    var i :| 0 <= i < |b.txs| && RefundsBy(b.txs[i], sub.id, at);
    assert RefundsBy(b.txs[i], sub.id, later);
  }

  // ---------------------------------------------------------------------
  // The rows.

  /** A transaction row keeps the transaction id; a lesson row is named by its mark (plus a random part). */
  datatype RowId = TransactionRow(txId: string) | LessonRow(studentId: string, date: string)

  datatype HistoryRow = HistoryRow(
    id: RowId,
    at: int,
    description: string,
    amount: Money,
    isDeposit: bool,
    isTransaction: bool,
    balanceAfter: Money)

  function LessonDescription(planName: string): string {
    "Списано занятие по абонементу \"" + planName + "\""
  }

  /** `plan?.name || ''` */
  function PlanName(plans: seq<SubscriptionPlan>, planId: string): string {
    match Ledger.FindPlan(plans, planId)
    case Some(p) => p.name
    case None => ""
  }

  function LessonPrice(sub: StudentSubscription): Money {
    if sub.lessonsTotal > 0 then sub.pricePaid / sub.lessonsTotal as real else 0.0
  }

  /** The subscription a lesson row is charged to, when its link names one the student has. */
  function ChargedTo(b: Books, m: Attendance): Option<StudentSubscription> {
    if Truthy(m.subscriptionId) then Ledger.FindSubscription(b.subs, m.subscriptionId.value) else None
  }

  /** The row an entry shows, given what the student is worth after it; a lesson with no known subscription shows none. */
  function RowFor(b: Books, e: Entry, worth: Money): Option<HistoryRow> {
    match e
    case TxEntry(tx, at) =>
      Some(HistoryRow(TransactionRow(tx.id), at, tx.description, tx.amount,
                      tx.kind == Payment || tx.kind == Refund || tx.kind == Correction, true, worth))
    case MarkEntry(m, at) =>
      match ChargedTo(b, m)
      case None => None
      case Some(sub) =>
        Some(HistoryRow(LessonRow(m.studentId, m.date), at, LessonDescription(PlanName(b.plans, sub.planId)),
                        LessonPrice(sub), false, false, worth))
  }

  predicate Shown(b: Books, e: Entry) {
    e.TxEntry? || ChargedTo(b, e.mark).Some?
  }

  /** The credit balance after the first k entries, starting from the stored balance minus the net effect. */
  function CreditAfter(b: Books, es: seq<Entry>, k: nat): Money
    requires k <= |es|
  {
    b.balance - NetEffect(es) + NetEffect(es[..k])
  }

  /** The replay starts below the stored balance by the net effect and ends exactly at it. */
  lemma ReplayEndsAtBalance(b: Books, es: seq<Entry>)
    ensures CreditAfter(b, es, 0) == b.balance - NetEffect(es)
    ensures CreditAfter(b, es, |es|) == b.balance
  {
    assert es[..|es|] == es;
  }

  lemma CreditStep(b: Books, es: seq<Entry>, i: nat)
    requires i < |es|
    ensures CreditAfter(b, es, i + 1) == CreditAfter(b, es, i) + EntryEffect(es[i])
  {
    assert es[..i + 1][..i] == es[..i];
  }

  /** totalWorthAfterEvent of entry k - 1. */
  function WorthAfter(b: Books, es: seq<Entry>, k: nat): Money
    requires 1 <= k <= |es|
  {
    CreditAfter(b, es, k) + SubsValue(b, b.subs, es[k - 1].at)
  }

  function AsSeq(o: Option<HistoryRow>): seq<HistoryRow> {
    if o.Some? then [o.value] else []
  }

  /** The rows of the first k entries, oldest first. */
  function Rows(b: Books, es: seq<Entry>, k: nat): seq<HistoryRow>
    requires k <= |es|
  {
    if k == 0 then [] else Rows(b, es, k - 1) + AsSeq(RowFor(b, es[k - 1], WorthAfter(b, es, k)))
  }

  /** The student's own subscriptions, transactions and attendance. */
  function BooksOf(s: Student, txs: seq<FinancialTransaction>, marks: seq<Attendance>,
                   subs: seq<StudentSubscription>, plans: seq<SubscriptionPlan>, parse: string -> DateValue): Books
  {
    Books(s.balance,
          Filter(subs, (x: StudentSubscription) => x.studentId == s.id),
          Filter(txs, (t: FinancialTransaction) => t.studentId == s.id),
          Filter(marks, (m: Attendance) => m.studentId == s.id),
          plans, parse)
  }

  /** processedHistory: nothing for an unknown student or an empty timeline, otherwise the rows newest first. */
  function HistoryOf(students: seq<Student>, studentId: string, txs: seq<FinancialTransaction>,
                     marks: seq<Attendance>, subs: seq<StudentSubscription>, plans: seq<SubscriptionPlan>,
                     parse: string -> DateValue): seq<HistoryRow>
  {
    match FindStudent(students, studentId)
    case None => []
    case Some(s) =>
      var es := Timeline(txs, marks, s.id, parse);
      if es == [] then [] else Reversed(Rows(BooksOf(s, txs, marks, subs, plans, parse), es, |es|))
  }

  /**
   * The replay loop over a timeline: the credit balance moves entry by entry
   * and each shown entry pushes one row; the rows come back newest first.
   */
  method Replay(b: Books, es: seq<Entry>) returns (history: seq<HistoryRow>)
    ensures history == Reversed(Rows(b, es, |es|))
  {
    var running := b.balance - NetEffect(es);
    var rows: seq<HistoryRow> := [];
    for i := 0 to |es|
      invariant running == CreditAfter(b, es, i)
      invariant rows == Rows(b, es, i)
    {
      var e := es[i];
      ghost var before := running;
      if e.TxEntry? {
        var tx := e.tx;
        if tx.kind == Debit { running := running - tx.amount; }
        if tx.kind == Correction { running := running + tx.amount; }
        if tx.kind == Refund && Contains(tx.description, Ledger.ToBalanceMarker) { running := running + tx.amount; }
      }
      assert running == before + EntryEffect(e);
      CreditStep(b, es, i);
      var worth := running + SubsValue(b, b.subs, e.at);
      var row := RowFor(b, e, worth);
      if row.Some? {
        rows := rows + [row.value];
      }
    }
    history := Reversed(rows);
  }

  /** processedHistory: the student's books and timeline, then the replay. */
  method ProcessedHistory(students: seq<Student>, studentId: string, txs: seq<FinancialTransaction>,
                          marks: seq<Attendance>, subs: seq<StudentSubscription>, plans: seq<SubscriptionPlan>,
                          parse: string -> DateValue)
    returns (history: seq<HistoryRow>)
    ensures history == HistoryOf(students, studentId, txs, marks, subs, plans, parse)
  {
    var found := FindStudent(students, studentId);
    if found.None? {
      return [];
    }
    var s := found.value;
    var es := Timeline(txs, marks, s.id, parse);
    if |es| == 0 {
      return [];
    }
    history := Replay(BooksOf(s, txs, marks, subs, plans, parse), es);
  }

  // ---------------------------------------------------------------------
  // Properties of the rows.

  /**
   * One row per shown entry: every transaction, and every lesson charged to a
   * subscription the student has.
   */
  lemma {:induction false} RowsCount(b: Books, es: seq<Entry>, k: nat)
    requires k <= |es|
    ensures |Rows(b, es, k)| == |Filter(es[..k], (e: Entry) => Shown(b, e))|
    decreases k
  {
    if k > 0 {
      RowsCount(b, es, k - 1);
      assert es[..k][..k - 1] == es[..k - 1];
    }
  }

  lemma RowForShape(b: Books, e: Entry, worth: Money)
    ensures var r := RowFor(b, e, worth);
      r.Some? ==>
        r.value.at == e.at
        && (r.value.isTransaction <==> r.value.id.TransactionRow?)
        && (!r.value.isTransaction ==> !r.value.isDeposit)
  {
  }

  /**
   * Transaction rows show their amount and lesson rows do not; a lesson row is
   * never styled as a deposit.
   */
  lemma {:induction false} RowsFlags(b: Books, es: seq<Entry>, k: nat)
    requires k <= |es|
    ensures forall i :: 0 <= i < |Rows(b, es, k)| ==>
        (Rows(b, es, k)[i].isTransaction <==> Rows(b, es, k)[i].id.TransactionRow?)
        && (!Rows(b, es, k)[i].isTransaction ==> !Rows(b, es, k)[i].isDeposit)
    decreases k
  {
    if k > 0 {
      RowsFlags(b, es, k - 1);
      RowForShape(b, es[k - 1], WorthAfter(b, es, k));
      var rows := Rows(b, es, k);
      var prev := Rows(b, es, k - 1);
      var last := RowFor(b, es[k - 1], WorthAfter(b, es, k));
      assert rows == prev + AsSeq(last);
      forall i | 0 <= i < |rows|
        ensures (rows[i].isTransaction <==> rows[i].id.TransactionRow?)
                && (!rows[i].isTransaction ==> !rows[i].isDeposit)
      {
        if i < |prev| {
          assert rows[i] == prev[i];
        } else {
          assert rows[i] == last.value;
        }
      }
    }
  }

  /** No row of the first k entries is dated after t when none of those entries is. */
  lemma {:induction false} RowsBounded(b: Books, es: seq<Entry>, k: nat, t: int)
    requires k <= |es|
    requires forall j :: 0 <= j < k ==> es[j].at <= t
    ensures forall i :: 0 <= i < |Rows(b, es, k)| ==> Rows(b, es, k)[i].at <= t
    decreases k
  {
    if k > 0 {
      RowsBounded(b, es, k - 1, t);
      RowForShape(b, es[k - 1], WorthAfter(b, es, k));
      var rows := Rows(b, es, k);
      var prev := Rows(b, es, k - 1);
      var last := RowFor(b, es[k - 1], WorthAfter(b, es, k));
      assert rows == prev + AsSeq(last);
      forall i | 0 <= i < |rows|
        ensures rows[i].at <= t
      {
        if i < |prev| {
          assert rows[i] == prev[i];
        } else {
          assert rows[i] == last.value;
        }
      }
    }
  }

  /** Over a timeline sorted oldest first, the rows are too. */
  lemma {:induction false} RowsSorted(b: Books, es: seq<Entry>, k: nat)
    requires k <= |es|
    requires forall i, j :: 0 <= i < j < |es| ==> es[i].at <= es[j].at
    ensures forall i, j :: 0 <= i < j < |Rows(b, es, k)| ==> Rows(b, es, k)[i].at <= Rows(b, es, k)[j].at
    decreases k
  {
    if k > 0 {
      RowsSorted(b, es, k - 1);
      RowsBounded(b, es, k - 1, es[k - 1].at);
      RowForShape(b, es[k - 1], WorthAfter(b, es, k));
      var rows := Rows(b, es, k);
      var prev := Rows(b, es, k - 1);
      var last := RowFor(b, es[k - 1], WorthAfter(b, es, k));
      assert rows == prev + AsSeq(last);
      forall i, j | 0 <= i < j < |rows|
        ensures rows[i].at <= rows[j].at
      {
        assert rows[i] == prev[i];
        if j < |prev| {
          assert rows[j] == prev[j];
        } else {
          assert rows[j] == last.value;
        }
      }
    }
  }

  lemma ReversedNewestFirst(rows: seq<HistoryRow>)
    requires forall i, j :: 0 <= i < j < |rows| ==> rows[i].at <= rows[j].at
    ensures forall i, j :: 0 <= i < j < |Reversed(rows)| ==> Reversed(rows)[i].at >= Reversed(rows)[j].at
  {
    var h := Reversed(rows);
    forall i, j | 0 <= i < j < |h|
      ensures h[i].at >= h[j].at
    {
      assert h[i] == rows[|rows| - 1 - i] && h[j] == rows[|rows| - 1 - j];
    }
  }

  /** Over a timeline sorted oldest first, the replayed rows come back newest first. */
  lemma ReplayNewestFirst(b: Books, es: seq<Entry>)
    requires forall i, j :: 0 <= i < j < |es| ==> es[i].at <= es[j].at
    ensures forall i, j :: 0 <= i < j < |Reversed(Rows(b, es, |es|))| ==>
      Reversed(Rows(b, es, |es|))[i].at >= Reversed(Rows(b, es, |es|))[j].at
  {
    RowsSorted(b, es, |es|);
    ReversedNewestFirst(Rows(b, es, |es|));
  }

  /** The history runs newest first. */
  lemma HistoryNewestFirst(students: seq<Student>, studentId: string, txs: seq<FinancialTransaction>,
                           marks: seq<Attendance>, subs: seq<StudentSubscription>, plans: seq<SubscriptionPlan>,
                           parse: string -> DateValue)
    ensures forall i, j :: 0 <= i < j < |HistoryOf(students, studentId, txs, marks, subs, plans, parse)| ==>
      HistoryOf(students, studentId, txs, marks, subs, plans, parse)[i].at
      >= HistoryOf(students, studentId, txs, marks, subs, plans, parse)[j].at
  {
    var found := FindStudent(students, studentId);
    if found.Some? {
      var s := found.value;
      var es := Timeline(txs, marks, s.id, parse);
      if es != [] {
        TimelineSorted(txs, marks, s.id, parse);
        ReplayNewestFirst(BooksOf(s, txs, marks, subs, plans, parse), es);
      }
    }
  }

  /**
   * When the newest entry is shown, the first row's balance is the stored
   * balance plus what the subscriptions are worth at that date.
   */
  lemma NewestRowBalance(students: seq<Student>, studentId: string, txs: seq<FinancialTransaction>,
                         marks: seq<Attendance>, subs: seq<StudentSubscription>, plans: seq<SubscriptionPlan>,
                         parse: string -> DateValue, s: Student)
    requires FindStudent(students, studentId) == Some(s)
    requires var es := Timeline(txs, marks, s.id, parse);
      es != [] && Shown(BooksOf(s, txs, marks, subs, plans, parse), es[|es| - 1])
    ensures var h := HistoryOf(students, studentId, txs, marks, subs, plans, parse);
      var es := Timeline(txs, marks, s.id, parse);
      var b := BooksOf(s, txs, marks, subs, plans, parse);
      h != [] && h[0].balanceAfter == s.balance + SubsValue(b, b.subs, es[|es| - 1].at)
  {
    var es := Timeline(txs, marks, s.id, parse);
    var b := BooksOf(s, txs, marks, subs, plans, parse);
    var rows := Rows(b, es, |es|);
    ReplayEndsAtBalance(b, es);
    assert rows[|rows| - 1].balanceAfter == WorthAfter(b, es, |es|);
  }
}
