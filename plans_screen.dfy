// The subscription plans screen: the plan form (its starting values and the
// guard on its numeric fields), what saving the form asks the store for, the
// star that makes a plan the default, and the figures and actions of each
// table row, where the system plan can be neither starred, edited nor
// deleted.

module PlansScreen {
  import opened Base
  import opened Types
  import opened Ledger
  import opened LedgerProperties

  // ---------------------------------------------------------------------
  // The plan form.

  datatype PlanForm = PlanForm(name: string, price: Money, discount: Money, lessonCount: int)

  /**
   * The form's starting values: empty for a new plan; for an edited plan its
   * own values, except that a lesson count of 0 (falsy) becomes 8.
   */
  function InitialForm(plan: Option<SubscriptionPlan>): (f: PlanForm)
    ensures plan.None? ==> f == PlanForm("", 0.0, 0.0, 8)
    ensures plan.Some? ==>
      f.name == plan.value.name && f.price == plan.value.price && f.discount == plan.value.discount
      && (plan.value.lessonCount != 0 ==> f.lessonCount == plan.value.lessonCount)
    ensures f.lessonCount != 0
  {
    match plan
    case None => PlanForm("", 0.0, 0.0, 8)
    case Some(p) => PlanForm(p.name, p.price, p.discount, if p.lessonCount != 0 then p.lessonCount else 8)
  }

  datatype NumericField = PriceField | DiscountField | LessonsField

  /**
   * handleChange on a numeric input.  `money` (price and discount) or
   * `lessons` (lesson count) is `Number(value)`, None for NaN, which fails
   * every comparison (an emptied input reads as 0): a value that is not >= 0
   * leaves the previous one in place.
   */
  function HandleChange(f: PlanForm, field: NumericField, money: Option<Money>, lessons: Option<int>): PlanForm {
    match field
    case PriceField => if money.Some? && money.value >= 0.0 then f.(price := money.value) else f
    case DiscountField => if money.Some? && money.value >= 0.0 then f.(discount := money.value) else f
    case LessonsField => if lessons.Some? && lessons.value >= 0 then f.(lessonCount := lessons.value) else f
  }

  predicate NonNegative(f: PlanForm) {
    f.price >= 0.0 && f.discount >= 0.0 && f.lessonCount >= 0
  }

  /**
   * A change writes only its own field; a negative or unreadable value
   * changes nothing, a non-negative one is taken as typed; so a form whose
   * figures are non-negative keeps them so.
   */
  lemma HandleChangeRules(f: PlanForm, field: NumericField, money: Option<Money>, lessons: Option<int>)
    ensures var g := HandleChange(f, field, money, lessons);
      g.name == f.name
      && (field != PriceField ==> g.price == f.price)
      && (field != DiscountField ==> g.discount == f.discount)
      && (field != LessonsField ==> g.lessonCount == f.lessonCount)
    ensures field == PriceField ==>
      HandleChange(f, field, money, lessons).price == (if money.Some? && money.value >= 0.0 then money.value else f.price)
    ensures field == DiscountField ==>
      HandleChange(f, field, money, lessons).discount == (if money.Some? && money.value >= 0.0 then money.value else f.discount)
    ensures field == LessonsField ==>
      HandleChange(f, field, money, lessons).lessonCount == (if lessons.Some? && lessons.value >= 0 then lessons.value else f.lessonCount)
    ensures NonNegative(f) ==> NonNegative(HandleChange(f, field, money, lessons))
  {
  }

  /** A run of changes from non-negative starting values never leaves a negative figure in the form. */
  function ApplyChanges(f: PlanForm, changes: seq<(NumericField, Option<Money>, Option<int>)>): PlanForm
    decreases |changes|
  {
    if changes == [] then f
    else ApplyChanges(HandleChange(f, changes[0].0, changes[0].1, changes[0].2), changes[1..])
  }

  lemma {:induction false} ChangesKeepNonNegative(f: PlanForm, changes: seq<(NumericField, Option<Money>, Option<int>)>)
    requires NonNegative(f)
    ensures NonNegative(ApplyChanges(f, changes))
    ensures ApplyChanges(f, changes).name == f.name
    decreases |changes|
  {
    if changes != [] {
      HandleChangeRules(f, changes[0].0, changes[0].1, changes[0].2);
      ChangesKeepNonNegative(HandleChange(f, changes[0].0, changes[0].1, changes[0].2), changes[1..]);
    }
  }

  /** A new plan's form starts non-negative, and so does an edited plan's whose figures are. */
  lemma InitialFormNonNegative(plan: Option<SubscriptionPlan>)
    ensures plan.None? ==> NonNegative(InitialForm(plan))
    ensures plan.Some? && plan.value.price >= 0.0 && plan.value.discount >= 0.0 && plan.value.lessonCount >= 0 ==>
      NonNegative(InitialForm(plan)) && InitialForm(plan).lessonCount > 0
  {
  }

  // ---------------------------------------------------------------------
  // Saving and starring.

  /** The insert payload of a new plan: the form's four fields. */
  datatype PlanDraft = PlanDraft(name: string, price: Money, discount: Money, lessonCount: int)

  datatype PlanCall =
    | CreatePlan(draft: PlanDraft)
    | UpdatePlanCall(id: string, u: PlanUpdate)

  /** handleSave: an edited plan is updated in its four form fields, otherwise a new plan is inserted. */
  function HandleSave(editing: Option<SubscriptionPlan>, f: PlanForm): PlanCall {
    if editing.Some? then
      UpdatePlanCall(editing.value.id, PlanUpdate(Put(f.name), Put(f.price), Put(f.discount), Put(f.lessonCount), Keep))
    else CreatePlan(PlanDraft(f.name, f.price, f.discount, f.lessonCount))
  }

  /** handleSetDefault: an update that only raises the plan's default flag. */
  function SetDefaultCall(planId: string): PlanCall {
    UpdatePlanCall(planId, PlanUpdate(Keep, Keep, Keep, Keep, Put(true)))
  }

  /**
   * Saving an edited plan, when the store accepts it, gives that plan the
   * form's name, price, discount and lesson count and keeps its id and
   * default flag; every other plan is left as it was.  With nothing being
   * edited the form's values go into a new plan.
   */
  lemma SaveRules(db: Db, editing: Option<SubscriptionPlan>, f: PlanForm, failUnset: bool)
    ensures editing.None? ==> HandleSave(editing, f) == CreatePlan(PlanDraft(f.name, f.price, f.discount, f.lessonCount))
    ensures editing.Some? ==> HandleSave(editing, f).UpdatePlanCall? && HandleSave(editing, f).id == editing.value.id
    ensures editing.Some? ==>
      var (db', _) := UpdatePlan(db, editing.value.id, HandleSave(editing, f).u, failUnset, false);
      |db'.plans| == |db.plans|
      && forall i :: 0 <= i < |db.plans| ==>
        db'.plans[i] == if db.plans[i].id == editing.value.id
                        then SubscriptionPlan(db.plans[i].id, f.name, f.price, f.discount, f.lessonCount, db.plans[i].isDefault)
                        else db.plans[i]
  {
    if editing.Some? {
      var u := HandleSave(editing, f).u;
      var id := editing.value.id;
      UpdatePlanDefaults(db, id, u, failUnset, false);
      var (db', r) := UpdatePlan(db, id, u, failUnset, false);
      forall i | 0 <= i < |db.plans|
        ensures db'.plans[i] == if db.plans[i].id == id
                                then SubscriptionPlan(db.plans[i].id, f.name, f.price, f.discount, f.lessonCount, db.plans[i].isDefault)
                                else db.plans[i]
      {
        if db.plans[i].id == id {
          assert FindPlan(db.plans, id).Some?;
          assert db'.plans[i] == ApplyPlanUpdate(db.plans[i], u);
        }
      }
    }
  }

  /**
   * Starring a plan that exists, with both store calls accepted, leaves it
   * the one default plan and changes no plan in anything but the flag.
   */
  lemma SetDefaultRules(db: Db, planId: string)
    requires exists i :: 0 <= i < |db.plans| && db.plans[i].id == planId
    ensures var (db', r) := UpdatePlan(db, planId, SetDefaultCall(planId).u, false, false);
      r.Some? && |db'.plans| == |db.plans|
      && (forall i :: 0 <= i < |db'.plans| ==> (db'.plans[i].isDefault <==> db'.plans[i].id == planId))
      && (forall i :: 0 <= i < |db.plans| ==> db'.plans[i] == db.plans[i].(isDefault := db'.plans[i].isDefault))
  {
    var u := SetDefaultCall(planId).u;
    UpdatePlanDefaults(db, planId, u, false, false);
    var db1 := db.(plans := ClearOtherDefaults(db.plans, planId));
    var i0 :| 0 <= i0 < |db.plans| && db.plans[i0].id == planId;
    assert db1.plans[i0].id == planId;
  }

  /** handleDelete: the plan is deleted only once the user confirms. */
  function DeleteClick(planId: string, confirmed: bool): (r: Option<string>)
    ensures r.Some? <==> confirmed
    ensures r.Some? ==> r.value == planId
  {
    if confirmed then Some(planId) else None
  }

  // ---------------------------------------------------------------------
  // The table.

  /** A plan's price after its discount. */
  function FinalPrice(p: SubscriptionPlan): Money {
    p.price - p.discount
  }

  /** The price of one lesson: the final price spread over the lessons, 0 without lessons. */
  function LessonPrice(p: SubscriptionPlan): Money {
    if p.lessonCount > 0 then FinalPrice(p) / p.lessonCount as real else 0.0
  }

  datatype PlanRow = PlanRow(
    finalPrice: Money,
    struckPrice: Option<Money>,     // the full price, struck through, when there is a discount
    lessons: Option<int>,           // None is shown as '-'
    lessonPrice: Option<Money>,     // None is shown as '-'
    starred: bool,
    starEnabled: bool,
    canEdit: bool,
    canDelete: bool)

  /** One table row; `systemId` is the id of the system plan. */
  function RowOf(p: SubscriptionPlan, systemId: string): PlanRow {
    var isSystem := p.id == systemId;
    PlanRow(FinalPrice(p),
            if p.discount > 0.0 then Some(p.price) else None,
            if p.lessonCount > 0 then Some(p.lessonCount) else None,
            if LessonPrice(p) > 0.0 then Some(LessonPrice(p)) else None,
            p.isDefault,
            !isSystem, !isSystem, !isSystem)
  }

  /**
   * The lesson price times the lesson count gives back the final price; a
   * lesson price is shown exactly when both the final price and the lesson
   * count are positive; the full price is struck through exactly when there
   * is a discount; and the system plan, and only it, has its star disabled
   * and no edit or delete action.
   */
  lemma RowRules(p: SubscriptionPlan, systemId: string)
    ensures RowOf(p, systemId).finalPrice == p.price - p.discount
    ensures p.lessonCount > 0 ==> LessonPrice(p) * p.lessonCount as real == p.price - p.discount
    ensures p.lessonCount <= 0 ==> LessonPrice(p) == 0.0
    ensures RowOf(p, systemId).lessonPrice.Some? <==> p.price > p.discount && p.lessonCount > 0
    ensures RowOf(p, systemId).lessonPrice.Some? ==> RowOf(p, systemId).lessonPrice.value == LessonPrice(p)
    ensures RowOf(p, systemId).struckPrice.Some? <==> p.discount > 0.0
    ensures RowOf(p, systemId).lessons.Some? <==> p.lessonCount > 0
    ensures var row := RowOf(p, systemId);
      (p.id == systemId <==> !row.starEnabled) && row.starEnabled == row.canEdit == row.canDelete
  {
    if p.lessonCount > 0 {
      var n := p.lessonCount as real;
      assert n > 0.0;
      assert LessonPrice(p) == (p.price - p.discount) / n;
      assert LessonPrice(p) > 0.0 <==> p.price - p.discount > 0.0;
    }
  }
}
