// Load-time sanitisation: the loosely typed rows the store returns are
// filtered on the fields each record needs, and the fields that may be
// missing are given fixed defaults; every other field of a kept row passes
// through as it came.

module Loading {
  import opened Sorting

  /** A JavaScript value as the store's rows carry it (NaN is not among the numbers). */
  datatype Value =
    | Undefined
    | Null
    | Bool(b: bool)
    | Num(n: real)
    | Text(s: string)
    | List(items: seq<Value>)
    | Obj(fields: map<string, Value>)

  type Row = map<string, Value>

  /** JavaScript truthiness. */
  predicate IsTruthy(v: Value) {
    match v
    case Undefined => false
    case Null => false
    case Bool(b) => b
    case Num(n) => n != 0.0
    case Text(s) => s != ""
    case List(_) => true
    case Obj(_) => true
  }

  /** `row.name`: undefined when the row has no such field. */
  function Get(m: Row, name: string): Value {
    if name in m then m[name] else Undefined
  }

  /** `v || fallback` */
  function Or(v: Value, fallback: Value): (r: Value)
    ensures IsTruthy(v) ==> r == v
    ensures !IsTruthy(v) ==> r == fallback
  {
    if IsTruthy(v) then v else fallback
  }

  /** `typeof v === 'number' ? v : fallback` */
  function NumberOr(v: Value, fallback: real): (r: Value)
    ensures r.Num?
    ensures v.Num? ==> r == v
    ensures !v.Num? ==> r == Num(fallback)
  {
    if v.Num? then v else Num(fallback)
  }

  predicate Has(m: Row, name: string) {
    IsTruthy(Get(m, name))
  }

  // ---------------------------------------------------------------------
  // The common shape: filter, then copy with defaults.

  /** `Array.isArray(data) ? data : []` */
  function Items(data: Value): seq<Value> {
    if data.List? then data.items else []
  }

  /** A row passes a table's test only when it is an object: `row && row.id` is falsy for anything else. */
  predicate Passes(v: Value, keep: Row -> bool) {
    v.Obj? && keep(v.fields)
  }

  /** `rows.filter(keep).map(fix)` over the rows that are objects. */
  function Clean(rows: seq<Value>, keep: Row -> bool, fix: Row -> Row): seq<Row>
    decreases |rows|
  {
    if rows == [] then []
    else
      var rest := Clean(rows[1..], keep, fix);
      if Passes(rows[0], keep) then [fix(rows[0].fields)] + rest else rest
  }

  /** The sanitised rows read back as values, as the next load would see them. */
  function Reload(rs: seq<Row>): (vs: seq<Value>)
    ensures |vs| == |rs| && forall i :: 0 <= i < |rs| ==> vs[i] == Obj(rs[i])
    decreases |rs|
  {
    if rs == [] then [] else [Obj(rs[0])] + Reload(rs[1..])
  }

  /** The kept rows are exactly the passing rows, each with its defaults filled in. */
  lemma {:induction false} CleanMembers(rows: seq<Value>, keep: Row -> bool, fix: Row -> Row, m: Row)
    ensures m in Clean(rows, keep, fix) <==> exists v :: v in rows && Passes(v, keep) && m == fix(v.fields)
    decreases |rows|
  {
    if rows != [] {
      CleanMembers(rows[1..], keep, fix, m);
      assert rows == [rows[0]] + rows[1..];
      if exists v :: v in rows && Passes(v, keep) && m == fix(v.fields) {
        var v :| v in rows && Passes(v, keep) && m == fix(v.fields);
        if v != rows[0] {
          assert v in rows[1..];
        }
      }
    }
  }

  /** Sanitising a concatenation sanitises each part in turn: kept rows keep their order. */
  lemma {:induction false} CleanAppend(a: seq<Value>, b: seq<Value>, keep: Row -> bool, fix: Row -> Row)
    ensures Clean(a + b, keep, fix) == Clean(a, keep, fix) + Clean(b, keep, fix)
    decreases |a|
  {
    if a == [] {
      assert a + b == b;
    } else {
      assert (a + b)[0] == a[0];
      assert (a + b)[1..] == a[1..] + b;
      CleanAppend(a[1..], b, keep, fix);
      var ra, rb := Clean(a[1..], keep, fix), Clean(b, keep, fix);
      if Passes(a[0], keep) {
        assert [fix(a[0].fields)] + (ra + rb) == ([fix(a[0].fields)] + ra) + rb;
      }
    }
  }

  /**
   * When the defaults leave a row passing and filling them in twice is
   * filling them in once, sanitising what a load gave back changes nothing.
   */
  lemma {:induction false} CleanIdempotent(rows: seq<Value>, keep: Row -> bool, fix: Row -> Row)
    requires forall m :: keep(m) ==> keep(fix(m)) && fix(fix(m)) == fix(m)
    ensures Clean(Reload(Clean(rows, keep, fix)), keep, fix) == Clean(rows, keep, fix)
    decreases |rows|
  {
    if rows != [] {
      CleanIdempotent(rows[1..], keep, fix);
      var rest := Clean(rows[1..], keep, fix);
      if Passes(rows[0], keep) {
        var m := fix(rows[0].fields);
        assert Reload([m] + rest) == [Obj(m)] + Reload(rest);
        assert Passes(Obj(m), keep);
      }
    }
  }

  /**
   * What every table's sanitiser promises once its defaults are known to
   * keep a row passing, to be settled by one application and to give the
   * table's shape: the kept rows are the passing rows with defaults, each
   * has the shape, and a reload of them is sanitised to itself.
   */
  lemma TableRules(data: Value, keep: Row -> bool, fix: Row -> Row, shape: Row -> bool, m: Row)
    requires forall r :: keep(r) ==> keep(fix(r)) && fix(fix(r)) == fix(r) && shape(fix(r))
    ensures m in Clean(Items(data), keep, fix) <==>
      exists v :: v in Items(data) && Passes(v, keep) && m == fix(v.fields)
    ensures m in Clean(Items(data), keep, fix) ==> shape(m)
    ensures Clean(Items(List(Reload(Clean(Items(data), keep, fix)))), keep, fix) == Clean(Items(data), keep, fix)
  {
    CleanMembers(Items(data), keep, fix, m);
    CleanIdempotent(Items(data), keep, fix);
  }

  // ---------------------------------------------------------------------
  // The nine tables.

  /** Groups need an id and a name; the copy changes nothing. */
  predicate KeepGroup(m: Row) { Has(m, "id") && Has(m, "name") }

  function Copy(m: Row): Row { m }

  function SanitizedGroups(data: Value): seq<Row> {
    Clean(Items(data), KeepGroup, Copy)
  }

  /** A plan needs only an id; name, price, discount and lesson count get defaults. */
  predicate KeepPlan(m: Row) { Has(m, "id") }

  function FixPlan(m: Row): Row {
    m["name" := Or(Get(m, "name"), Text("Без имени"))]
     ["price" := NumberOr(Get(m, "price"), 0.0)]
     ["discount" := NumberOr(Get(m, "discount"), 0.0)]
     ["lesson_count" := NumberOr(Get(m, "lesson_count"), 0.0)]
  }

  function SanitizedPlans(data: Value): seq<Row> {
    Clean(Items(data), KeepPlan, FixPlan)
  }

  /** A student subscription needs its ids, a purchase date and numeric price and total. */
  predicate KeepSubscription(m: Row) {
    Has(m, "id") && Has(m, "student_id") && Has(m, "subscription_plan_id") && Has(m, "purchase_date")
    && Get(m, "price_paid").Num? && Get(m, "lessons_total").Num?
  }

  function FixSubscription(m: Row): Row {
    m["lessons_attended" := NumberOr(Get(m, "lessons_attended"), 0.0)]
     ["assigned_group_id" := Or(Get(m, "assigned_group_id"), Null)]
  }

  function SanitizedSubscriptions(data: Value): seq<Row> {
    Clean(Items(data), KeepSubscription, FixSubscription)
  }

  /** An attendance mark needs a student, a date and a status. */
  predicate KeepAttendance(m: Row) { Has(m, "student_id") && Has(m, "date") && Has(m, "status") }

  function SanitizedAttendance(data: Value): seq<Row> {
    Clean(Items(data), KeepAttendance, Copy)
  }

  /** A transaction needs an id, a student, a date, a type and a numeric amount; the description defaults to empty. */
  predicate KeepTransaction(m: Row) {
    Has(m, "id") && Has(m, "student_id") && Has(m, "date") && Has(m, "type") && Get(m, "amount").Num?
  }

  function FixTransaction(m: Row): Row {
    m["description" := Or(Get(m, "description"), Text(""))]
  }

  function SanitizedTransactions(data: Value): seq<Row> {
    Clean(Items(data), KeepTransaction, FixTransaction)
  }

  /**
   * An event needs an id, both times, a title and a start that parses as a
   * date (`parses` stands for `!isNaN(new Date(start).getTime())`); the
   * recurring flag becomes a boolean.
   */
  predicate KeepEvent(parses: Value -> bool, m: Row) {
    Has(m, "id") && Has(m, "start") && Has(m, "end") && Has(m, "title") && parses(Get(m, "start"))
  }

  function FixEvent(m: Row): Row {
    m["is_recurring" := Bool(IsTruthy(Get(m, "is_recurring")))]
  }

  function SanitizedEvents(data: Value, parses: Value -> bool): seq<Row> {
    Clean(Items(data), (m: Row) => KeepEvent(parses, m), FixEvent)
  }

  /** An exception needs the event id and the occurrence's original start. */
  predicate KeepException(m: Row) { Has(m, "original_event_id") && Has(m, "original_start_time") }

  function SanitizedExceptions(data: Value): seq<Row> {
    Clean(Items(data), KeepException, Copy)
  }

  /** An expense needs an id, a date and a numeric amount; the description has a default. */
  predicate KeepExpense(m: Row) { Has(m, "id") && Has(m, "date") && Get(m, "amount").Num? }

  function FixExpense(m: Row): Row {
    m["description" := Or(Get(m, "description"), Text("Без описания"))]
  }

  function SanitizedExpenses(data: Value): seq<Row> {
    Clean(Items(data), KeepExpense, FixExpense)
  }

  /** A student needs only an id; every field the screens read gets a default. */
  predicate KeepStudent(m: Row) { Has(m, "id") }

  function FixStudent(m: Row): Row {
    m["name" := Or(Get(m, "name"), Text("Имя не указано"))]
     ["balance" := NumberOr(Get(m, "balance"), 0.0)]
     ["group_ids" := if Get(m, "group_ids").List? then Get(m, "group_ids") else List([])]
     ["status" := Or(Get(m, "status"), Text("active"))]
     ["parent_name" := Or(Get(m, "parent_name"), Text("Не указано"))]
     ["parent_phone1" := Or(Get(m, "parent_phone1"), Text("Не указано"))]
     ["birth_date" := Or(Get(m, "birth_date"), Null)]
  }

  function SanitizedStudents(data: Value): seq<Row> {
    Clean(Items(data), KeepStudent, FixStudent)
  }

  // ---------------------------------------------------------------------
  // What each table's defaults guarantee.

  predicate PlanShape(m: Row) {
    Has(m, "id") && Has(m, "name")
    && Get(m, "price").Num? && Get(m, "discount").Num? && Get(m, "lesson_count").Num?
  }

  /**
   * A plan keeps a truthy name and numeric price, discount and lesson count
   * as they came, and otherwise gets 'Без имени' and zeros; every other
   * field, the id among them, is untouched.
   */
  lemma FixPlanRules(m: Row)
    ensures Get(FixPlan(m), "name") == if Has(m, "name") then Get(m, "name") else Text("Без имени")
    ensures forall f :: f == "price" || f == "discount" || f == "lesson_count" ==>
      Get(FixPlan(m), f) == if Get(m, f).Num? then Get(m, f) else Num(0.0)
    ensures forall f :: f != "name" && f != "price" && f != "discount" && f != "lesson_count" ==>
      Get(FixPlan(m), f) == Get(m, f)
    ensures KeepPlan(m) ==> PlanShape(FixPlan(m)) && KeepPlan(FixPlan(m))
    ensures FixPlan(FixPlan(m)) == FixPlan(m)
  {
    var r := FixPlan(m);
    assert FixPlan(r) == r by {
      assert Has(r, "name");
    }
  }

  lemma PlansRules(data: Value, m: Row)
    ensures m in SanitizedPlans(data) <==> exists v :: v in Items(data) && v.Obj? && Has(v.fields, "id") && m == FixPlan(v.fields)
    ensures m in SanitizedPlans(data) ==> PlanShape(m)
    ensures SanitizedPlans(List(Reload(SanitizedPlans(data)))) == SanitizedPlans(data)
  {
    forall r | KeepPlan(r) ensures KeepPlan(FixPlan(r)) && FixPlan(FixPlan(r)) == FixPlan(r) && PlanShape(FixPlan(r)) {
      FixPlanRules(r);
    }
    TableRules(data, KeepPlan, FixPlan, PlanShape, m);
  }

  predicate SubscriptionShape(m: Row) {
    KeepSubscription(m) && Get(m, "lessons_attended").Num?
    && (Has(m, "assigned_group_id") || Get(m, "assigned_group_id") == Null)
  }

  /**
   * A subscription keeps a numeric attended counter, else starts it at 0,
   * and keeps a truthy assigned group, else has null; every other field is
   * untouched.
   */
  lemma FixSubscriptionRules(m: Row)
    ensures Get(FixSubscription(m), "lessons_attended") ==
      if Get(m, "lessons_attended").Num? then Get(m, "lessons_attended") else Num(0.0)
    ensures Get(FixSubscription(m), "assigned_group_id") ==
      if Has(m, "assigned_group_id") then Get(m, "assigned_group_id") else Null
    ensures forall f :: f != "lessons_attended" && f != "assigned_group_id" ==>
      Get(FixSubscription(m), f) == Get(m, f)
    ensures KeepSubscription(m) ==> SubscriptionShape(FixSubscription(m))
    ensures FixSubscription(FixSubscription(m)) == FixSubscription(m)
  {
  }

  lemma SubscriptionsRules(data: Value, m: Row)
    ensures m in SanitizedSubscriptions(data) <==>
      exists v :: v in Items(data) && v.Obj? && KeepSubscription(v.fields) && m == FixSubscription(v.fields)
    ensures m in SanitizedSubscriptions(data) ==> SubscriptionShape(m)
    ensures SanitizedSubscriptions(List(Reload(SanitizedSubscriptions(data)))) == SanitizedSubscriptions(data)
  {
    forall r | KeepSubscription(r)
      ensures KeepSubscription(FixSubscription(r)) && FixSubscription(FixSubscription(r)) == FixSubscription(r)
        && SubscriptionShape(FixSubscription(r))
    {
      FixSubscriptionRules(r);
    }
    TableRules(data, KeepSubscription, FixSubscription, SubscriptionShape, m);
  }

  /** A transaction keeps a truthy description, else has the empty text; every other field is untouched. */
  lemma FixTransactionRules(m: Row)
    ensures Get(FixTransaction(m), "description") == if Has(m, "description") then Get(m, "description") else Text("")
    ensures forall f :: f != "description" ==> Get(FixTransaction(m), f) == Get(m, f)
    ensures KeepTransaction(FixTransaction(m)) == KeepTransaction(m)
    ensures FixTransaction(FixTransaction(m)) == FixTransaction(m)
  {
  }

  lemma TransactionsRules(data: Value, m: Row)
    ensures m in SanitizedTransactions(data) <==>
      exists v :: v in Items(data) && v.Obj? && KeepTransaction(v.fields) && m == FixTransaction(v.fields)
    ensures m in SanitizedTransactions(data) ==>
      KeepTransaction(m) && (Has(m, "description") || Get(m, "description") == Text(""))
    ensures SanitizedTransactions(List(Reload(SanitizedTransactions(data)))) == SanitizedTransactions(data)
  {
    var shape := (r: Row) => KeepTransaction(r) && (Has(r, "description") || Get(r, "description") == Text(""));
    forall r | KeepTransaction(r)
      ensures KeepTransaction(FixTransaction(r)) && FixTransaction(FixTransaction(r)) == FixTransaction(r)
        && shape(FixTransaction(r))
    {
      FixTransactionRules(r);
    }
    TableRules(data, KeepTransaction, FixTransaction, shape, m);
  }

  /** An event's recurring flag becomes the boolean of its truthiness; every other field is untouched. */
  lemma FixEventRules(parses: Value -> bool, m: Row)
    ensures Get(FixEvent(m), "is_recurring") == Bool(IsTruthy(Get(m, "is_recurring")))
    ensures forall f :: f != "is_recurring" ==> Get(FixEvent(m), f) == Get(m, f)
    ensures KeepEvent(parses, FixEvent(m)) == KeepEvent(parses, m)
    ensures FixEvent(FixEvent(m)) == FixEvent(m)
  {
    assert Get(FixEvent(m), "start") == Get(m, "start");
  }

  lemma EventsRules(data: Value, parses: Value -> bool, m: Row)
    ensures m in SanitizedEvents(data, parses) <==>
      exists v :: v in Items(data) && v.Obj? && KeepEvent(parses, v.fields) && m == FixEvent(v.fields)
    ensures m in SanitizedEvents(data, parses) ==>
      KeepEvent(parses, m) && Get(m, "is_recurring").Bool?
    ensures SanitizedEvents(List(Reload(SanitizedEvents(data, parses))), parses) == SanitizedEvents(data, parses)
  {
    var keep := (r: Row) => KeepEvent(parses, r);
    var shape := (r: Row) => KeepEvent(parses, r) && Get(r, "is_recurring").Bool?;
    forall r | keep(r)
      ensures keep(FixEvent(r)) && FixEvent(FixEvent(r)) == FixEvent(r) && shape(FixEvent(r))
    {
      FixEventRules(parses, r);
    }
    TableRules(data, keep, FixEvent, shape, m);
    assert forall v :: Passes(v, keep) <==> v.Obj? && KeepEvent(parses, v.fields);
  }

  /** An expense keeps a truthy description, else has 'Без описания'; every other field is untouched. */
  lemma FixExpenseRules(m: Row)
    ensures Get(FixExpense(m), "description") ==
      if Has(m, "description") then Get(m, "description") else Text("Без описания")
    ensures forall f :: f != "description" ==> Get(FixExpense(m), f) == Get(m, f)
    ensures KeepExpense(FixExpense(m)) == KeepExpense(m)
    ensures FixExpense(FixExpense(m)) == FixExpense(m)
  {
    assert Has(FixExpense(m), "description");
  }

  lemma ExpensesRules(data: Value, m: Row)
    ensures m in SanitizedExpenses(data) <==>
      exists v :: v in Items(data) && v.Obj? && KeepExpense(v.fields) && m == FixExpense(v.fields)
    ensures m in SanitizedExpenses(data) ==> KeepExpense(m) && Has(m, "description")
    ensures SanitizedExpenses(List(Reload(SanitizedExpenses(data)))) == SanitizedExpenses(data)
  {
    var shape := (r: Row) => KeepExpense(r) && Has(r, "description");
    forall r | KeepExpense(r)
      ensures KeepExpense(FixExpense(r)) && FixExpense(FixExpense(r)) == FixExpense(r) && shape(FixExpense(r))
    {
      FixExpenseRules(r);
    }
    TableRules(data, KeepExpense, FixExpense, shape, m);
  }

  predicate StudentShape(m: Row) {
    Has(m, "id") && Has(m, "name") && Get(m, "balance").Num? && Get(m, "group_ids").List?
    && Has(m, "status") && Has(m, "parent_name") && Has(m, "parent_phone1")
    && (Has(m, "birth_date") || Get(m, "birth_date") == Null)
  }

  /**
   * A student keeps each truthy text field, a numeric balance and an array
   * of group ids as they came; otherwise the name is 'Имя не указано', the
   * balance 0, the groups empty, the status 'active', the parent's name and
   * phone 'Не указано' and the birth date null.  Every other field is
   * untouched.
   */
  lemma FixStudentRules(m: Row)
    ensures Get(FixStudent(m), "name") == if Has(m, "name") then Get(m, "name") else Text("Имя не указано")
    ensures Get(FixStudent(m), "balance") == if Get(m, "balance").Num? then Get(m, "balance") else Num(0.0)
    ensures Get(FixStudent(m), "group_ids") == if Get(m, "group_ids").List? then Get(m, "group_ids") else List([])
    ensures Get(FixStudent(m), "status") == if Has(m, "status") then Get(m, "status") else Text("active")
    ensures forall f :: f == "parent_name" || f == "parent_phone1" ==>
      Get(FixStudent(m), f) == if Has(m, f) then Get(m, f) else Text("Не указано")
    ensures Get(FixStudent(m), "birth_date") == if Has(m, "birth_date") then Get(m, "birth_date") else Null
    ensures forall f :: f !in ["name", "balance", "group_ids", "status", "parent_name", "parent_phone1", "birth_date"] ==>
      Get(FixStudent(m), f) == Get(m, f)
  {
  }

  /** The defaults give a student its shape. */
  lemma FixStudentShape(m: Row)
    ensures KeepStudent(m) ==> StudentShape(FixStudent(m)) && KeepStudent(FixStudent(m))
  {
    var r := FixStudent(m);
    assert Get(r, "id") == Get(m, "id");
    assert Has(r, "name") && Has(r, "status") by { }
    assert Has(r, "parent_name") && Has(r, "parent_phone1") by { }
    assert Get(r, "balance").Num? && Get(r, "group_ids").List? by { }
    assert Has(r, "birth_date") || Get(r, "birth_date") == Null by { }
  }

  /** A second pass of the defaults changes nothing. */
  lemma FixStudentIdempotent(m: Row)
    ensures FixStudent(FixStudent(m)) == FixStudent(m)
  {
    var r := FixStudent(m);
    assert Has(r, "name") && Has(r, "status") && Has(r, "parent_name") && Has(r, "parent_phone1");
    assert Get(r, "balance").Num? && Get(r, "group_ids").List?;
    assert Has(r, "birth_date") || Get(r, "birth_date") == Null;
  }

  lemma StudentsRules(data: Value, m: Row)
    ensures m in SanitizedStudents(data) <==>
      exists v :: v in Items(data) && v.Obj? && Has(v.fields, "id") && m == FixStudent(v.fields)
    ensures m in SanitizedStudents(data) ==> StudentShape(m)
    ensures SanitizedStudents(List(Reload(SanitizedStudents(data)))) == SanitizedStudents(data)
  {
    forall r | KeepStudent(r)
      ensures KeepStudent(FixStudent(r)) && FixStudent(FixStudent(r)) == FixStudent(r) && StudentShape(FixStudent(r))
    {
      FixStudentShape(r);
      FixStudentIdempotent(r);
    }
    TableRules(data, KeepStudent, FixStudent, StudentShape, m);
  }

  /**
   * The three tables copied as they come keep exactly the rows with their
   * required fields: groups with an id and a name, attendance with a
   * student, a date and a status, exceptions with the event and the start.
   */
  lemma CopiedTablesRules(data: Value, m: Row)
    ensures m in SanitizedGroups(data) <==> Obj(m) in Items(data) && Has(m, "id") && Has(m, "name")
    ensures m in SanitizedAttendance(data) <==>
      Obj(m) in Items(data) && Has(m, "student_id") && Has(m, "date") && Has(m, "status")
    ensures m in SanitizedExceptions(data) <==>
      Obj(m) in Items(data) && Has(m, "original_event_id") && Has(m, "original_start_time")
  {
    TableRules(data, KeepGroup, Copy, KeepGroup, m);
    TableRules(data, KeepAttendance, Copy, KeepAttendance, m);
    TableRules(data, KeepException, Copy, KeepException, m);
    if Obj(m) in Items(data) {
      assert Obj(m).fields == m;
    }
  }
}
