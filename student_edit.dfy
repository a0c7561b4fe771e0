// The student card: how a transaction is signed, the amount due for a
// chosen plan and the payment it issues, group check boxes, the remaining
// lessons and money of each subscription with its cancel button, the plans
// offered for purchase, and the attendance history newest first.

module StudentEditScreen {
  import opened Base
  import opened Types
  import opened Sorting
  import opened Ledger
  import opened GroupsScreen

  // ---------------------------------------------------------------------
  // Transaction style.

  datatype Tone = Green | Blue | Red

  datatype Sign = Plus | Minus

  datatype TxStyle = TxStyle(tone: Tone, sign: Sign)

  /**
   * getTransactionStyle: only a debit is shown with a minus, and in red;
   * every other type with a plus (its default branch has no type to match).
   */
  function TransactionStyle(kind: TransactionType): (st: TxStyle)
    ensures st.sign == Minus <==> kind == Debit
    ensures st.tone == Red <==> kind == Debit
    ensures st.tone == Blue <==> kind == Correction
  {
    match kind
    case Payment => TxStyle(Green, Plus)
    case Refund => TxStyle(Green, Plus)
    case Correction => TxStyle(Blue, Plus)
    case Debit => TxStyle(Red, Minus)
  }

  // ---------------------------------------------------------------------
  // Paying for a new subscription.

  /** The finalAmount effect: the chosen plan's price less its discount, or 0 with no such plan. */
  function FinalAmount(plans: seq<SubscriptionPlan>, planId: string): Money {
    var plan := FindPlan(plans, planId);
    if plan.Some? then plan.value.price - plan.value.discount else 0.0
  }

  /**
   * handlePayment with the handler behind it: a non-negative amount, a chosen
   * plan and a saved student give a subscription for the amount with the
   * plan's lesson count and no group; anything else issues nothing.
   */
  function HandlePayment(finalAmount: Money, planId: string, studentId: Option<string>,
                         plans: seq<SubscriptionPlan>): Option<SubscriptionDraft>
  {
    if finalAmount >= 0.0 && planId != "" && Truthy(studentId) then
      var plan := FindPlan(plans, planId);
      if plan.None? then None
      else Some(SubscriptionDraft(studentId.value, planId, finalAmount, plan.value.lessonCount, None))
    else None
  }

  /**
   * With the amount the effect computes, a payment is issued exactly for a
   * saved student and a known plan whose price is at least its discount; it
   * charges price − discount and buys the plan's lesson count.
   */
  lemma PaymentRules(planId: string, studentId: Option<string>, plans: seq<SubscriptionPlan>)
    ensures var d := HandlePayment(FinalAmount(plans, planId), planId, studentId, plans);
      d.Some? <==>
        Truthy(studentId) && planId != "" && FindPlan(plans, planId).Some?
        && FindPlan(plans, planId).value.price >= FindPlan(plans, planId).value.discount
    ensures var d := HandlePayment(FinalAmount(plans, planId), planId, studentId, plans);
      d.Some? ==>
        exists p :: p in plans && p.id == planId
          && d.value == SubscriptionDraft(studentId.value, planId, p.price - p.discount, p.lessonCount, None)
    ensures FindPlan(plans, planId).None? ==> FinalAmount(plans, planId) == 0.0
  {
  }

  /** The plans offered for purchase: those with a positive price. */
  function PurchasablePlans(plans: seq<SubscriptionPlan>): seq<SubscriptionPlan> {
    Filter(plans, (p: SubscriptionPlan) => p.price > 0.0)
  }

  lemma PurchasablePlansRules(plans: seq<SubscriptionPlan>, p: SubscriptionPlan)
    ensures p in PurchasablePlans(plans) <==> p in plans && p.price > 0.0
  {
    FilterMembers(plans, (p: SubscriptionPlan) => p.price > 0.0, p);
  }

  // ---------------------------------------------------------------------
  // Group check boxes.

  /** handleGroupChange: checking appends the group id, unchecking filters it out. */
  function ToggleGroup(ids: seq<string>, groupId: string, checked: bool): seq<string> {
    if checked then ids + [groupId] else RemoveId(ids, groupId)
  }

  /**
   * A checked box puts the group among the ids after the old ones; an
   * unchecked one takes out every copy of it and keeps the rest; unchecking a
   * box just checked restores the ids.
   */
  lemma ToggleGroupRules(ids: seq<string>, groupId: string)
    ensures ToggleGroup(ids, groupId, true)[..|ids|] == ids && groupId in ToggleGroup(ids, groupId, true)
    ensures multiset(ToggleGroup(ids, groupId, false)) == multiset(ids)[groupId := 0]
    ensures groupId !in ids ==> ToggleGroup(ToggleGroup(ids, groupId, true), groupId, false) == ids
  {
    assert ToggleGroup(ids, groupId, true)[|ids|] == groupId;
    RemoveIdCounts(ids, groupId);
    if groupId !in ids {
      RemoveAbsent(ids, groupId);
      assert RemoveId(ids + [groupId], groupId) == RemoveId(ids, groupId);
    }
  }

  // ---------------------------------------------------------------------
  // Subscriptions on the card.

  function RemainingLessons(sub: StudentSubscription): int {
    sub.lessonsTotal - sub.lessonsAttended
  }

  /** The card's money left: the price of one lesson (0 without lessons) times the lessons left. */
  function ShownRemainingValue(sub: StudentSubscription): Money {
    var single := if sub.lessonsTotal > 0 then sub.pricePaid / sub.lessonsTotal as real else 0.0;
    single * RemainingLessons(sub) as real
  }

  /** The cancel button is shown only with lessons left. */
  predicate CanCancel(sub: StudentSubscription) {
    RemainingLessons(sub) > 0
  }

  /**
   * The card shows the same money left as the refund of a cancel writes, and
   * with lessons left, a positive price and counters in range that amount is
   * positive and at most the price paid.
   */
  lemma CardMatchesRefund(sub: StudentSubscription, txId: string, now: int, toBalance: bool)
    ensures ShownRemainingValue(sub) == RemainingValue(sub) == RefundFor(sub, txId, now, toBalance).amount
    ensures CanCancel(sub) && sub.pricePaid > 0.0 && 0 <= sub.lessonsAttended <= sub.lessonsTotal ==>
      0.0 < ShownRemainingValue(sub) <= sub.pricePaid
  {
    if CanCancel(sub) && sub.pricePaid > 0.0 && 0 <= sub.lessonsAttended <= sub.lessonsTotal {
      RemainingValueBounds(sub);
      var per := sub.pricePaid / sub.lessonsTotal as real;
      assert per > 0.0;
      assert ShownRemainingValue(sub) == per * RemainingLessons(sub) as real;
      assert RemainingLessons(sub) as real >= 1.0;
    }
  }

  // ---------------------------------------------------------------------
  // Attendance history.

  /**
   * studentAttendanceHistory: nothing for an unsaved student, else the
   * student's records newest first; `dayOf` reads a record's date text.
   */
  function AttendanceHistory(rows: seq<Attendance>, studentId: Option<string>, dayOf: string -> int): seq<Attendance> {
    if !Truthy(studentId) then []
    else SortByNumber(Filter(rows, (a: Attendance) => a.studentId == studentId.value), (a: Attendance) => -dayOf(a.date))
  }

  /** The history holds exactly the student's records, newest first. */
  lemma AttendanceHistoryRules(rows: seq<Attendance>, studentId: Option<string>, dayOf: string -> int)
    ensures !Truthy(studentId) ==> AttendanceHistory(rows, studentId, dayOf) == []
    ensures Truthy(studentId) ==> forall a ::
      a in AttendanceHistory(rows, studentId, dayOf) <==> a in rows && a.studentId == studentId.value
    ensures var h := AttendanceHistory(rows, studentId, dayOf);
      forall i, j :: 0 <= i < j < |h| ==> dayOf(h[i].date) >= dayOf(h[j].date)
  {
    if Truthy(studentId) {
      var mine := (a: Attendance) => a.studentId == studentId.value;
      var newest := (a: Attendance) => -dayOf(a.date);
      var f := Filter(rows, mine);
      forall a ensures a in AttendanceHistory(rows, studentId, dayOf) <==> a in rows && a.studentId == studentId.value {
        assert a in SortByNumber(f, newest) <==> a in multiset(SortByNumber(f, newest));
        assert a in f <==> a in multiset(f);
        FilterMembers(rows, mine, a);
      }
      SortByNumberSorted(f, newest);
    }
  }
}
