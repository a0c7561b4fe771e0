// What the ledger operations promise, stated about the functions that
// describe their effect on the tables (module Ledger).

module LedgerProperties {
  import opened Base
  import opened Types
  import opened Ledger

  // ---------------------------------------------------------------------
  // Lookups.

  lemma {:induction false} FindAttendanceIndex(rows: seq<Attendance>, studentId: string, date: string) returns (k: int)
    requires FindAttendance(rows, studentId, date).Some?
    ensures 0 <= k < |rows| && rows[k] == FindAttendance(rows, studentId, date).value
    ensures forall j :: 0 <= j < k ==> !SameKey(rows[j], studentId, date)
  {
    if SameKey(rows[0], studentId, date) {
      k := 0;
    } else {
      var k' := FindAttendanceIndex(rows[1..], studentId, date);
      k := k' + 1;
    }
  }

  lemma {:induction false} FindAttendanceFirst(rows: seq<Attendance>, studentId: string, date: string, k: int)
    requires 0 <= k < |rows| && SameKey(rows[k], studentId, date)
    requires forall j :: 0 <= j < k ==> !SameKey(rows[j], studentId, date)
    ensures FindAttendance(rows, studentId, date) == Some(rows[k])
  {
    if k > 0 {
      FindAttendanceFirst(rows[1..], studentId, date, k - 1);
    }
  }

  /** With unique ids, looking a subscription up finds the row with that id. */
  lemma FindSubscriptionAt(subs: seq<StudentSubscription>, k: int)
    requires SubscriptionIdsUnique(subs) && 0 <= k < |subs|
    ensures FindSubscription(subs, subs[k].id) == Some(subs[k])
  {
    FindByAt(subs, (s: StudentSubscription) => s.id, k);
  }

  /** With unique ids, the rows carrying the id of a stored subscription are that subscription. */
  lemma SameIdSameRow(subs: seq<StudentSubscription>, c: StudentSubscription, i: int)
    requires SubscriptionIdsUnique(subs) && c in subs && 0 <= i < |subs| && subs[i].id == c.id
    ensures subs[i] == c
  {
    var k :| 0 <= k < |subs| && subs[k] == c;
  }

  // ---------------------------------------------------------------------
  // Choosing the subscription to charge.

  predicate UsableFor(s: StudentSubscription, studentId: string) {
    s.studentId == studentId && s.lessonsAttended < s.lessonsTotal
  }

  /**
   * The charged subscription is one of the student's with lessons left, assigned
   * to the mark's group or to no group, and one assigned to no group is taken only
   * when none assigned to the group is usable.  Among the usable subscriptions of
   * its kind it is one bought last.  Nothing is chosen exactly when the student
   * is unknown or has no usable subscription of either kind.
   */
  lemma ChooseSubscriptionRules(db: Db, studentId: string, groupId: string)
    ensures var r := ChooseSubscription(db, studentId, groupId);
      r.Some? ==> r.value in db.subscriptions && UsableFor(r.value, studentId)
                  && (r.value.assignedGroupId == Some(groupId) || r.value.assignedGroupId == None)
    ensures var r := ChooseSubscription(db, studentId, groupId);
      (r.Some? && r.value.assignedGroupId == None) ==>
        forall i :: 0 <= i < |db.subscriptions| && UsableFor(db.subscriptions[i], studentId) ==>
          db.subscriptions[i].assignedGroupId != Some(groupId)
    ensures var r := ChooseSubscription(db, studentId, groupId);
      r.Some? ==>
        forall i :: 0 <= i < |db.subscriptions| && UsableFor(db.subscriptions[i], studentId)
                    && db.subscriptions[i].assignedGroupId == r.value.assignedGroupId ==>
          NewerOrSame(r.value, db.subscriptions[i])
    ensures ChooseSubscription(db, studentId, groupId).None? <==>
      !HasStudent(db.students, studentId)
      || forall i :: 0 <= i < |db.subscriptions| && UsableFor(db.subscriptions[i], studentId) ==>
           db.subscriptions[i].assignedGroupId != Some(groupId) && db.subscriptions[i].assignedGroupId != None
  {
    var subs := db.subscriptions;
    var usable := UsableOf(subs, studentId);
    forall i | 0 <= i < |subs| && UsableFor(subs[i], studentId)
      ensures subs[i] in usable
    {
    }
    var r := ChooseSubscription(db, studentId, groupId);
    if r.Some? {
      forall i | 0 <= i < |subs| && UsableFor(subs[i], studentId) && subs[i].assignedGroupId == r.value.assignedGroupId
        ensures NewerOrSame(r.value, subs[i])
      {
        var j :| 0 <= j < |usable| && usable[j] == subs[i];
      }
    }
  }

  // ---------------------------------------------------------------------
  // setAttendanceRecord.

  /** The payload's row is the first row with its key after an upsert. */
  lemma UpsertFind(rows: seq<Attendance>, w: AttendanceWrite)
    ensures var old_ := FindAttendance(rows, w.studentId, w.date);
      FindAttendance(Upsert(rows, w), w.studentId, w.date)
        == Some(if old_.Some? then Merge(old_.value, w) else NewRow(w))
  {
    var up := Upsert(rows, w);
    if FindAttendance(rows, w.studentId, w.date).Some? {
      var k := FindAttendanceIndex(rows, w.studentId, w.date);
      FindAttendanceFirst(up, w.studentId, w.date, k);
    } else {
      FindAttendanceFirst(up, w.studentId, w.date, |rows|);
    }
  }

  lemma UpsertKeepsKeysUnique(rows: seq<Attendance>, w: AttendanceWrite)
    requires AttendanceKeysUnique(rows)
    ensures AttendanceKeysUnique(Upsert(rows, w))
  {
  }

  lemma SetCounterKeepsIdsUnique(subs: seq<StudentSubscription>, id: string, n: int)
    requires SubscriptionIdsUnique(subs)
    ensures SubscriptionIdsUnique(SetCounter(subs, id, n))
  {
  }

  /** Every row whose counter changes is the charged subscription. */
  lemma ChargeTouchesOnlyItsRow(db: Db, record: AttendanceWrite, groupId: string, i: int)
    requires Valid(db)
    requires PlanAttendance(db, record, groupId).charge.Some?
    requires 0 <= i < |db.subscriptions|
    requires db.subscriptions[i].id == PlanAttendance(db, record, groupId).charge.value.id
    ensures db.subscriptions[i] == PlanAttendance(db, record, groupId).charge.value
    ensures record.status != Excused
    ensures UsableFor(db.subscriptions[i], record.studentId)
    ensures db.subscriptions[i].assignedGroupId == Some(groupId) || db.subscriptions[i].assignedGroupId == None
  {
    ChooseSubscriptionRules(db, record.studentId, groupId);
    SameIdSameRow(db.subscriptions, PlanAttendance(db, record, groupId).charge.value, i);
  }

  /** setAttendanceRecord keeps the table constraints, whichever store calls fail. */
  lemma SetAttendanceKeepsValid(db: Db, record: AttendanceWrite, groupId: string, failUpdate: bool, failUpsert: bool)
    requires Valid(db)
    ensures Valid(SetAttendance(db, record, groupId, failUpdate, failUpsert))
  {
    var plan := PlanAttendance(db, record, groupId);
    if plan.charge.Some? && !failUpdate {
      ChargeKeepsSubscriptionsValid(db, record, groupId);
    }
    if !(plan.charge.Some? && failUpdate) && !failUpsert {
      UpsertKeepsKeysUnique(db.attendance, plan.write);
    }
  }

  /** The one-lesson charge keeps subscription ids unique and every counter in range. */
  lemma ChargeKeepsSubscriptionsValid(db: Db, record: AttendanceWrite, groupId: string)
    requires Valid(db)
    requires PlanAttendance(db, record, groupId).charge.Some?
    ensures var c := PlanAttendance(db, record, groupId).charge.value;
      var subs' := SetCounter(db.subscriptions, c.id, c.lessonsAttended + 1);
      SubscriptionIdsUnique(subs') && CountersInRange(subs')
  {
    var c := PlanAttendance(db, record, groupId).charge.value;
    var subs' := SetCounter(db.subscriptions, c.id, c.lessonsAttended + 1);
    SetCounterKeepsIdsUnique(db.subscriptions, c.id, c.lessonsAttended + 1);
    forall i | 0 <= i < |subs'| ensures CounterInRange(subs'[i]) {
      if db.subscriptions[i].id == c.id {
        ChargeTouchesOnlyItsRow(db, record, groupId, i);
      }
    }
  }

  /**
   * A mark charges at most one subscription, by exactly one lesson: one of the
   * student's with lessons left, assigned to the mark's group or to none, and
   * only for a present or absent mark whose stored row is not linked yet.
   * Subscriptions assigned to other groups are never charged.
   */
  lemma SetAttendanceChargesAtMostOne(db: Db, record: AttendanceWrite, groupId: string, failUpdate: bool, failUpsert: bool)
    requires Valid(db)
    ensures var db' := SetAttendance(db, record, groupId, failUpdate, failUpsert);
      |db'.subscriptions| == |db.subscriptions|
      && forall i :: 0 <= i < |db.subscriptions| && db'.subscriptions[i] != db.subscriptions[i] ==>
           db'.subscriptions[i] == db.subscriptions[i].(lessonsAttended := db.subscriptions[i].lessonsAttended + 1)
           && record.status != Excused
           && UsableFor(db.subscriptions[i], record.studentId)
           && (db.subscriptions[i].assignedGroupId == Some(groupId) || db.subscriptions[i].assignedGroupId == None)
           && !(FindAttendance(db.attendance, record.studentId, record.date).Some?
                && Truthy(FindAttendance(db.attendance, record.studentId, record.date).value.subscriptionId))
    ensures var db' := SetAttendance(db, record, groupId, failUpdate, failUpsert);
      forall i, j :: (0 <= i < |db.subscriptions| && 0 <= j < |db.subscriptions|
                      && db'.subscriptions[i] != db.subscriptions[i] && db'.subscriptions[j] != db.subscriptions[j]) ==> i == j
  {
    var plan := PlanAttendance(db, record, groupId);
    var db' := SetAttendance(db, record, groupId, failUpdate, failUpsert);
    if plan.charge.Some? && !failUpdate {
      var c := plan.charge.value;
      forall i | 0 <= i < |db.subscriptions| && db'.subscriptions[i] != db.subscriptions[i]
        ensures db.subscriptions[i] == c
      {
        ChargeTouchesOnlyItsRow(db, record, groupId, i);
      }
      forall i | 0 <= i < |db.subscriptions| && db.subscriptions[i].id == c.id
        ensures record.status != Excused
        ensures UsableFor(db.subscriptions[i], record.studentId)
        ensures db.subscriptions[i].assignedGroupId == Some(groupId) || db.subscriptions[i].assignedGroupId == None
      {
        ChargeTouchesOnlyItsRow(db, record, groupId, i);
      }
      forall i, j | (0 <= i < |db.subscriptions| && 0 <= j < |db.subscriptions|
                     && db'.subscriptions[i] != db.subscriptions[i] && db'.subscriptions[j] != db.subscriptions[j])
        ensures i == j
      {
      }
    }
  }

  /**
   * An excused mark changes no counter, and an excused payload without a link
   * keeps the stored row's link (the lesson is not given back).
   */
  lemma ExcusedKeepsLesson(db: Db, record: AttendanceWrite, groupId: string, failUpsert: bool)
    requires record.status == Excused && record.link == Keep
    ensures var db' := SetAttendance(db, record, groupId, false, failUpsert);
      db'.subscriptions == db.subscriptions
      && (!failUpsert ==>
            var before := FindAttendance(db.attendance, record.studentId, record.date);
            var after := FindAttendance(db'.attendance, record.studentId, record.date);
            after.Some? && after.value.status == Excused
            && after.value.subscriptionId == (if before.Some? then before.value.subscriptionId else None))
  {
    if !failUpsert {
      UpsertFind(db.attendance, record);
    }
  }

  /** A present or absent mark over a stored row that is already linked charges nothing and keeps that link. */
  lemma LinkedMarkNotRecharged(db: Db, record: AttendanceWrite, groupId: string, failUpdate: bool, failUpsert: bool)
    requires record.status != Excused
    requires var before := FindAttendance(db.attendance, record.studentId, record.date);
      before.Some? && Truthy(before.value.subscriptionId)
    ensures var db' := SetAttendance(db, record, groupId, failUpdate, failUpsert);
      db'.subscriptions == db.subscriptions
      && (!failUpsert ==>
            FindAttendance(db'.attendance, record.studentId, record.date).Some?
            && FindAttendance(db'.attendance, record.studentId, record.date).value.subscriptionId
              == FindAttendance(db.attendance, record.studentId, record.date).value.subscriptionId)
  {
    var plan := PlanAttendance(db, record, groupId);
    if !failUpsert {
      UpsertFind(db.attendance, plan.write);
    }
  }

  /**
   * When the counter update fails nothing is written; when it succeeds but the
   * upsert fails, the lesson stays charged while the mark is not stored.
   */
  lemma SetAttendanceFailures(db: Db, record: AttendanceWrite, groupId: string, failUpsert: bool)
    requires PlanAttendance(db, record, groupId).charge.Some?
    ensures SetAttendance(db, record, groupId, true, failUpsert) == db
    ensures var db' := SetAttendance(db, record, groupId, false, true);
      db'.attendance == db.attendance && db'.subscriptions != db.subscriptions
  {
    var c := PlanAttendance(db, record, groupId).charge.value;
    ChooseSubscriptionRules(db, record.studentId, groupId);
    var k :| 0 <= k < |db.subscriptions| && db.subscriptions[k] == c;
    var db' := SetAttendance(db, record, groupId, false, true);
    assert db'.subscriptions[k].lessonsAttended == c.lessonsAttended + 1;
  }

  // ---------------------------------------------------------------------
  // deleteAttendanceRecord.

  lemma {:induction false} RemoveAttendanceKeepsKeysUnique(rows: seq<Attendance>, studentId: string, date: string)
    requires AttendanceKeysUnique(rows)
    ensures AttendanceKeysUnique(RemoveAttendance(rows, studentId, date))
    decreases |rows|
  {
    if rows != [] {
      var tail := rows[1..];
      assert AttendanceKeysUnique(tail) by {
        forall i, j | 0 <= i < j < |tail| ensures !SameKey(tail[j], tail[i].studentId, tail[i].date) {
          assert tail[i] == rows[i + 1] && tail[j] == rows[j + 1];
        }
      }
      RemoveAttendanceKeepsKeysUnique(tail, studentId, date);
      var rest := RemoveAttendance(tail, studentId, date);
      forall j | 0 <= j < |rest| ensures !SameKey(rest[j], rows[0].studentId, rows[0].date) {
        var m :| 0 <= m < |tail| && tail[m] == rest[j];
        assert tail[m] == rows[m + 1];
      }
    }
  }

  lemma {:induction false} SubscriptionsKeepRange(subs: seq<StudentSubscription>, id: string, n: int)
    requires CountersInRange(subs)
    requires forall i :: 0 <= i < |subs| && subs[i].id == id ==> CounterInRange(subs[i].(lessonsAttended := n))
    ensures CountersInRange(SetCounter(subs, id, n))
  {
  }

  /**
   * Deleting a mark linked to a known subscription sets that subscription's
   * counter to max(0, n - 1) and then removes the mark; if the counter update
   * fails, nothing changes.  Other subscriptions, the students and the
   * transactions are untouched, and the table constraints are kept.
   */
  lemma DeleteGivesLessonBack(db: Db, studentId: string, date: string, failUpdate: bool, failDelete: bool)
    requires Valid(db)
    ensures var db' := DeleteAttendance(db, studentId, date, failUpdate, failDelete);
      var sub := LinkedSubscription(db, studentId, date);
      Valid(db')
      && (sub.Some? && failUpdate ==> db' == db)
      && (!(sub.Some? && failUpdate) ==>
            |db'.subscriptions| == |db.subscriptions|
            && (forall i :: 0 <= i < |db.subscriptions| ==>
                  if sub.Some? && db.subscriptions[i] == sub.value
                  then db'.subscriptions[i] == sub.value.(lessonsAttended := Max0(sub.value.lessonsAttended - 1))
                  else db'.subscriptions[i] == db.subscriptions[i])
            && (!failDelete ==> FindAttendance(db'.attendance, studentId, date).None?))
      && db'.students == db.students && db'.transactions == db.transactions
  {
    var sub := LinkedSubscription(db, studentId, date);
    var db' := DeleteAttendance(db, studentId, date, failUpdate, failDelete);
    if !(sub.Some? && failUpdate) {
      if sub.Some? {
        var c := sub.value;
        SetCounterKeepsIdsUnique(db.subscriptions, c.id, Max0(c.lessonsAttended - 1));
        forall i | 0 <= i < |db.subscriptions| && db.subscriptions[i].id == c.id
          ensures db.subscriptions[i] == c
        {
          SameIdSameRow(db.subscriptions, c, i);
        }
        SubscriptionsKeepRange(db.subscriptions, c.id, Max0(c.lessonsAttended - 1));
      }
      if !failDelete {
        RemoveAttendanceKeepsKeysUnique(db.attendance, studentId, date);
      }
    }
  }

  // ---------------------------------------------------------------------
  // addStudentSubscription.

  /**
   * Buying a subscription adds exactly one subscription with a zero counter
   * and, unless that insert fails, one payment of the price paid linked to it;
   * marks are not touched, so earlier unlinked marks stay unlinked.
   */
  lemma AddSubscriptionEffect(db: Db, draft: SubscriptionDraft, subId: string, txId: string, now: int,
                              failSub: bool, failTx: bool)
    requires Valid(db)
    ensures var (db', r) := AddSubscription(db, draft, subId, txId, now, failSub, failTx);
      Valid(db')
      && db'.attendance == db.attendance && db'.students == db.students
      && (r.None? <==> failSub || HasSubscriptionId(db.subscriptions, subId))
      && (r.None? ==> db' == db)
      && (r.Some? ==>
            r.value.id == subId && r.value.lessonsAttended == 0 && r.value.studentId == draft.studentId
            && r.value.lessonsTotal == draft.lessonsTotal && r.value.pricePaid == draft.pricePaid
            && db'.subscriptions == db.subscriptions + [r.value]
            && (db'.transactions == db.transactions
                || (db'.transactions == db.transactions + [db'.transactions[|db.transactions|]]
                    && var tx := db'.transactions[|db.transactions|];
                    tx.kind == Payment && tx.amount == draft.pricePaid && tx.subscriptionId == Some(subId)
                    && tx.studentId == draft.studentId)))
  {
    var (db', r) := AddSubscription(db, draft, subId, txId, now, failSub, failTx);
    if r.Some? {
      assert FindSubscription(db.subscriptions, subId).None?;
      assert SubscriptionIdsUnique(db'.subscriptions);
      if db'.transactions != db.transactions {
        assert !HasTransactionId(db.transactions, txId);
        assert TransactionIdsUnique(db'.transactions);
      }
    }
  }

  // ---------------------------------------------------------------------
  // Refund and cancel.

  /** An unknown subscription id writes nothing. */
  lemma CancelUnknownIsNoop(db: Db, subId: string, txId: string, now: int, toBalance: bool, failTx: bool, failDelete: bool)
    requires forall i :: 0 <= i < |db.subscriptions| ==> db.subscriptions[i].id != subId
    ensures CancelSubscription(db, subId, txId, now, toBalance, failTx, failDelete) == db
  {
  }

  /**
   * Cancelling a known subscription writes one refund of its remaining value
   * (lessons left times price per lesson), linked to it, then deletes it; the
   * student's balance, the marks and the plans are untouched.
   */
  lemma CancelKnownEffect(db: Db, k: int, txId: string, now: int, toBalance: bool)
    requires Valid(db) && 0 <= k < |db.subscriptions|
    requires !HasTransactionId(db.transactions, txId)
    ensures var sub := db.subscriptions[k];
      var db' := CancelSubscription(db, sub.id, txId, now, toBalance, false, false);
      Valid(db')
      && db'.students == db.students && db'.attendance == db.attendance && db'.plans == db.plans
      && |db'.transactions| == |db.transactions| + 1
      && db'.transactions[..|db.transactions|] == db.transactions
      && (var tx := db'.transactions[|db.transactions|];
          tx.kind == Refund && tx.studentId == sub.studentId && tx.subscriptionId == Some(sub.id)
          && (sub.lessonsTotal > 0 ==>
                tx.amount * (sub.lessonsTotal as real) == sub.pricePaid * ((sub.lessonsTotal - sub.lessonsAttended) as real))
          && (sub.lessonsTotal <= 0 ==> tx.amount == 0.0))
      && (forall i :: 0 <= i < |db'.subscriptions| ==> db'.subscriptions[i].id != sub.id)
      && (forall i :: 0 <= i < |db.subscriptions| && i != k ==> db.subscriptions[i] in db'.subscriptions)
  {
    var sub := db.subscriptions[k];
    FindSubscriptionAt(db.subscriptions, k);
    var db' := CancelSubscription(db, sub.id, txId, now, toBalance, false, false);
    forall i | 0 <= i < |db.subscriptions| && i != k ensures db.subscriptions[i].id != sub.id {
      if i < k {
        assert db.subscriptions[i].id != db.subscriptions[k].id;
      } else {
        assert db.subscriptions[k].id != db.subscriptions[i].id;
      }
    }
    RemoveSubscriptionKeepsValid(db.subscriptions, sub.id);
    assert TransactionIdsUnique(db'.transactions);
  }

  /**
   * The two calls of a cancel are not chained: the delete runs whether or not
   * the refund insert succeeded, so a failed insert loses the subscription
   * together with its remaining value; a failed delete keeps the subscription,
   * next to the refund when that insert went through.
   */
  lemma CancelFailures(db: Db, k: int, txId: string, now: int, toBalance: bool, failTx: bool, failDelete: bool)
    requires Valid(db) && 0 <= k < |db.subscriptions|
    ensures var sub := db.subscriptions[k];
      var db' := CancelSubscription(db, sub.id, txId, now, toBalance, failTx, failDelete);
      Valid(db')
      && db'.students == db.students && db'.attendance == db.attendance && db'.plans == db.plans
      && (failTx || HasTransactionId(db.transactions, txId) ==> db'.transactions == db.transactions)
      && (!failTx && !HasTransactionId(db.transactions, txId) ==>
            db'.transactions == db.transactions + [RefundFor(sub, txId, now, toBalance)])
      && (failDelete ==> db'.subscriptions == db.subscriptions)
      && (!failDelete ==>
            (forall i :: 0 <= i < |db'.subscriptions| ==> db'.subscriptions[i].id != sub.id)
            && forall i :: 0 <= i < |db.subscriptions| && i != k ==> db.subscriptions[i] in db'.subscriptions)
  {
    var sub := db.subscriptions[k];
    FindSubscriptionAt(db.subscriptions, k);
    forall i | 0 <= i < |db.subscriptions| && i != k ensures db.subscriptions[i].id != sub.id {
      if i < k {
        assert db.subscriptions[i].id != db.subscriptions[k].id;
      } else {
        assert db.subscriptions[k].id != db.subscriptions[i].id;
      }
    }
    RemoveSubscriptionKeepsValid(db.subscriptions, sub.id);
    var db' := CancelSubscription(db, sub.id, txId, now, toBalance, failTx, failDelete);
    assert TransactionIdsUnique(db'.transactions);
  }

  lemma {:induction false} RemoveSubscriptionKeepsValid(subs: seq<StudentSubscription>, id: string)
    requires SubscriptionIdsUnique(subs) && CountersInRange(subs)
    ensures SubscriptionIdsUnique(RemoveSubscription(subs, id)) && CountersInRange(RemoveSubscription(subs, id))
    decreases |subs|
  {
    if subs != [] {
      var tail := subs[1..];
      assert SubscriptionIdsUnique(tail) by {
        forall i, j | 0 <= i < j < |tail| ensures tail[i].id != tail[j].id {
          assert tail[i] == subs[i + 1] && tail[j] == subs[j + 1];
        }
      }
      assert CountersInRange(tail) by {
        forall i | 0 <= i < |tail| ensures CounterInRange(tail[i]) {
          assert tail[i] == subs[i + 1];
        }
      }
      RemoveSubscriptionKeepsValid(tail, id);
      var rest := RemoveSubscription(tail, id);
      forall j | 0 <= j < |rest| ensures rest[j].id != subs[0].id {
        var m :| 0 <= m < |tail| && tail[m] == rest[j];
        assert tail[m] == subs[m + 1];
      }
    }
  }

  /** The two cancel variants differ only in the description of the refund they write. */
  lemma CancelVariantsDifferOnlyInDescription(db: Db, subId: string, txId: string, now: int, failTx: bool, failDelete: bool)
    ensures var a := CancelSubscription(db, subId, txId, now, true, failTx, failDelete);
      var b := CancelSubscription(db, subId, txId, now, false, failTx, failDelete);
      a.students == b.students && a.subscriptions == b.subscriptions && a.attendance == b.attendance
      && a.plans == b.plans && a.groups == b.groups
      && |a.transactions| == |b.transactions|
      && forall i :: 0 <= i < |a.transactions| ==>
           a.transactions[i].(description := "") == b.transactions[i].(description := "")
  {
  }

  /** The refund-to-balance description carries the marker the history credits. */
  lemma BalanceRefundCarriesMarker(subId: string)
    ensures Contains(RefundDescription(true, subId), ToBalanceMarker)
  {
    assert OccursAt(RefundDescription(true, subId), ToBalanceMarker, 0);
  }

  /** The cash refund description does not carry that marker, whatever the subscription id. */
  lemma CashRefundLacksMarker(subId: string)
    ensures !Contains(RefundDescription(false, subId), ToBalanceMarker)
  {
    var t := Take(subId, 4);
    var c := "В" + (CashRest + (t + ")"));
    CashDescriptionShape(subId);
    CashRestLetters();
    assert c[8] == CashRest[7];
    NoMarkerAfterFirst(c, CashRest);
  }

  /** The cash refund text after its first letter, up to the subscription id. */
  const CashRest: string := "озврат средств наличными (Абонемент #"

  lemma CashDescriptionShape(subId: string)
    ensures RefundDescription(false, subId) == "В" + (CashRest + (Take(subId, 4) + ")"))
  {
  }

  lemma CashRestLetters()
    ensures |CashRest| == 37 && CashRest[7] == 'с' && !('В' in CashRest)
  {
  }

  lemma NoMarkerAfterFirst(c: string, rest: string)
    requires |rest| == 37 && 38 <= |c| <= 43 && c[0] == 'В' && c[8] == 'с'
    requires forall k :: 0 <= k < |rest| ==> c[k + 1] == rest[k]
    requires !('В' in rest)
    ensures !Contains(c, ToBalanceMarker)
  {
    forall i | 0 <= i <= |c| - |ToBalanceMarker|
      ensures !OccursAt(c, ToBalanceMarker, i)
    {
      if i == 0 {
        MismatchAt(c, ToBalanceMarker, 0, 8);
      } else {
        assert c[i] == rest[i - 1];
        MismatchAt(c, ToBalanceMarker, i, 0);
      }
    }
  }

  /** One differing character rules an occurrence out. */
  lemma MismatchAt(s: string, p: string, i: int, j: int)
    requires 0 <= i && 0 <= j < |p| && i + j < |s| && s[i + j] != p[j]
    ensures !OccursAt(s, p, i)
  {
  }

  // ---------------------------------------------------------------------
  // updateSubscriptionPlan and clearStudentFinancialData.

  /**
   * Raising the default flag first lowers it on every other plan, and that
   * write stays even when the update itself then fails; the plan with the id
   * takes the named fields only when the update goes through, and a
   * successful update that raised the flag leaves that plan the only default.
   * No other table changes.
   */
  lemma UpdatePlanDefaults(db: Db, id: string, u: PlanUpdate, failUnset: bool, failUpdate: bool)
    ensures var (db', r) := UpdatePlan(db, id, u, failUnset, failUpdate);
      |db'.plans| == |db.plans|
      && (r.Some? <==> !failUpdate && exists i :: 0 <= i < |db.plans| && db.plans[i].id == id)
      && (forall i :: 0 <= i < |db.plans| && db.plans[i].id == id ==>
            db'.plans[i] == if r.Some? then ApplyPlanUpdate(db.plans[i], u) else db.plans[i])
      && (forall i :: 0 <= i < |db.plans| && db.plans[i].id != id ==>
            db'.plans[i] == if u.isDefault == Put(true) && !failUnset then db.plans[i].(isDefault := false) else db.plans[i])
      && (r.Some? ==> r.value in db'.plans && r.value.id == id)
      && (u.isDefault == Put(true) && !failUnset && r.Some? ==>
            forall i :: 0 <= i < |db'.plans| ==> (db'.plans[i].isDefault <==> db'.plans[i].id == id))
      && db' == db.(plans := db'.plans)
  {
    var db1 := if u.isDefault == Put(true) && !failUnset then db.(plans := ClearOtherDefaults(db.plans, id)) else db;
    assert |db1.plans| == |db.plans|;
    forall i | 0 <= i < |db.plans| && db.plans[i].id == id
      ensures db1.plans[i] == db.plans[i] && FindPlan(db1.plans, id).Some?
    {
      assert db1.plans[i].id == id;
    }
    var target := FindPlan(db1.plans, id);
    if !failUpdate && target.Some? {
      var k :| 0 <= k < |db1.plans| && db1.plans[k] == target.value;
      assert UpdatePlanRows(db1.plans, id, u)[k] == ApplyPlanUpdate(target.value, u);
    }
  }

  /**
   * After a reset whose four calls succeed, every transaction, subscription and
   * mark left is one the `neq(…, systemId)` filters spare, and every other
   * student's balance is 0; groups and plans are untouched.
   */
  lemma ClearWipesFinancialTables(db: Db, systemId: string)
    ensures var db' := ClearFinancialData(db, systemId, false, false, false, false);
      (forall i :: 0 <= i < |db'.transactions| ==> db'.transactions[i].id == systemId)
      && (forall i :: 0 <= i < |db'.subscriptions| ==> db'.subscriptions[i].id == systemId)
      && (forall i :: 0 <= i < |db'.attendance| ==> db'.attendance[i].studentId == systemId)
      && |db'.students| == |db.students|
      && (forall i :: 0 <= i < |db'.students| ==>
            db'.students[i].id == db.students[i].id
            && (db.students[i].id != systemId ==> db'.students[i] == db.students[i].(balance := 0.0)))
      && db'.groups == db.groups && db'.plans == db.plans
  {
  }
}
