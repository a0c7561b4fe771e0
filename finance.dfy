// The finance screen: the reporting period, the period rollup of income,
// expenses and profit, and the two ways of entering an expense (the modal
// form and the inline row).

module Finance {
  import opened Base
  import opened Calendar
  import opened Types
  import opened Sorting
  import Ledger

  // ---------------------------------------------------------------------
  // The period.

  datatype Period = MonthPeriod | YearPeriod | AllTime

  /** Both ends are inclusive instants. */
  datatype Bounds = Bounds(start: int, end: int)

  /** The largest instant a JavaScript Date can hold. */
  const MaxDate: int := 8640000000000000

  /** startDate and endDate for the chosen period, on the local clock at `now`. */
  function PeriodBounds(period: Period, now: int): Bounds {
    var c := CivilOfDay(DayOf(now));
    match period
    case MonthPeriod =>
      Bounds(LocalTime(c.year, c.month, 1, 0, 0, 0, 0), LocalTime(c.year, c.month + 1, 0, 23, 59, 59, 999))
    case YearPeriod =>
      Bounds(LocalTime(c.year, 0, 1, 0, 0, 0, 0), LocalTime(c.year, 11, 31, 23, 59, 59, 999))
    case AllTime => Bounds(0, MaxDate)
  }

  /** From the first millisecond of day lo to the last millisecond of day hi. */
  lemma DayWindow(lo: int, hi: int, t: int)
    ensures lo * DayMs <= t <= hi * DayMs + (DayMs - 1) <==> lo <= DayOf(t) <= hi
  {
    var z := DayOf(t);
    assert z * DayMs <= t < z * DayMs + DayMs;
    if lo <= z {
      assert lo * DayMs <= z * DayMs;
    } else {
      assert (lo - 1) * DayMs >= z * DayMs;
    }
    if z <= hi {
      assert z * DayMs <= hi * DayMs;
    } else {
      assert z * DayMs >= (hi + 1) * DayMs;
    }
  }

  /** The days from January 1 to December 31 are exactly the days of that year. */
  lemma YearDays(y: int, z: int)
    ensures MakeDay(y, 0, 1) <= z <= MakeDay(y, 11, 31) <==> CivilOfDay(z).year == y
  {
    MakeDayInYear(y, 0, 1);
    MakeDayInYear(y, 11, 31);
    DaysBeforeMonthStep(y, 11);
    DayFromYearStep(y);
    assert CivilOfDay(z).year == YearOfDay(z);
    if MakeDay(y, 0, 1) <= z <= MakeDay(y, 11, 31) {
      YearOfDayUnique(z, y);
    }
    if YearOfDay(z) == y {
      YearOfDayBounds(z);
    }
  }

  /** The month period holds exactly the instants in the same calendar month as now. */
  lemma MonthPeriodExact(now: int, t: int)
    ensures var b := PeriodBounds(MonthPeriod, now);
      b.start <= t <= b.end
      <==> CivilOfDay(DayOf(t)).year == CivilOfDay(DayOf(now)).year
           && CivilOfDay(DayOf(t)).month == CivilOfDay(DayOf(now)).month
  {
    var c := CivilOfDay(DayOf(now));
    CivilMonthRange(DayOf(now));
    var lo, hi := LocalTime(c.year, c.month, 1, 0, 0, 0, 0), LocalTime(c.year, c.month + 1, 0, 23, 59, 59, 999);
    assert lo <= t <= hi <==> CivilOfDay(DayOf(t)).year == c.year && CivilOfDay(DayOf(t)).month == c.month by {
      MonthWindow(c.year, c.month, t);
    }
    assert PeriodBounds(MonthPeriod, now) == Bounds(lo, hi);
  }

  /** From the 1st at midnight to the last millisecond of the month's last day. */
  lemma MonthWindow(y: int, m: int, t: int)
    requires 0 <= m < 12
    ensures LocalTime(y, m, 1, 0, 0, 0, 0) <= t <= LocalTime(y, m + 1, 0, 23, 59, 59, 999)
      <==> CivilOfDay(DayOf(t)).year == y && CivilOfDay(DayOf(t)).month == m
  {
    LastDayOfMonth(y, m);
    DayWindow(MakeDay(y, m, 1), MakeDay(y, m, DaysInMonth(y, m)), t);
    MonthDays(y, m, DayOf(t));
  }

  /** The year period holds exactly the instants in the same calendar year as now. */
  lemma YearPeriodExact(now: int, t: int)
    ensures var b := PeriodBounds(YearPeriod, now);
      b.start <= t <= b.end <==> CivilOfDay(DayOf(t)).year == CivilOfDay(DayOf(now)).year
  {
    var c := CivilOfDay(DayOf(now));
    DayWindow(MakeDay(c.year, 0, 1), MakeDay(c.year, 11, 31), t);
    YearDays(c.year, DayOf(t));
  }

  /** Whatever the period, it contains now when now lies between the epoch and the largest date. */
  lemma PeriodContainsNow(period: Period, now: int)
    requires 0 <= now <= MaxDate
    ensures PeriodBounds(period, now).start <= now <= PeriodBounds(period, now).end
  {
    match period {
      case MonthPeriod => MonthPeriodExact(now, now);
      case YearPeriod => YearPeriodExact(now, now);
      case AllTime =>
    }
  }

  // ---------------------------------------------------------------------
  // The rollup.

  /** A row is kept when its date is valid and lies within the period, both ends included. */
  predicate InPeriod(d: DateValue, b: Bounds) {
    d.At? && b.start <= d.ms <= b.end
  }

  /** Payments add, refunds subtract, corrections and debits are ignored. */
  function IncomeOf(txs: seq<FinancialTransaction>): Money {
    if txs == [] then 0.0
    else
      var t := txs[|txs| - 1];
      IncomeOf(txs[..|txs| - 1])
      + (if t.kind == Payment then t.amount else if t.kind == Refund then -t.amount else 0.0)
  }

  function AmountSum(txs: seq<FinancialTransaction>): Money {
    if txs == [] then 0.0 else AmountSum(txs[..|txs| - 1]) + txs[|txs| - 1].amount
  }

  function ExpensesTotal(exps: seq<Expense>): Money {
    if exps == [] then 0.0 else ExpensesTotal(exps[..|exps| - 1]) + exps[|exps| - 1].amount
  }

  function IsPayment(t: FinancialTransaction): bool { t.kind == Payment }

  function IsRefund(t: FinancialTransaction): bool { t.kind == Refund }

  /** Income is the sum of the payments less the sum of the refunds. */
  lemma {:induction false} IncomeIsPaymentsLessRefunds(txs: seq<FinancialTransaction>)
    ensures IncomeOf(txs) == AmountSum(Filter(txs, IsPayment)) - AmountSum(Filter(txs, IsRefund))
    decreases |txs|
  {
    if txs != [] {
      IncomeIsPaymentsLessRefunds(txs[..|txs| - 1]);
    }
  }

  /** What the ledger writes moves income by the payment made or the refund paid out. */
  lemma LedgerWritesIncome(txs: seq<FinancialTransaction>, sub: StudentSubscription, draft: SubscriptionDraft,
                           subId: string, txId: string, now: int, toBalance: bool)
    ensures IncomeOf(txs + [Ledger.PaymentFor(draft, subId, txId, now)]) == IncomeOf(txs) + draft.pricePaid
    ensures IncomeOf(txs + [Ledger.RefundFor(sub, txId, now, toBalance)]) == IncomeOf(txs) - RemainingValue(sub)
  {
    assert (txs + [Ledger.PaymentFor(draft, subId, txId, now)])[..|txs|] == txs;
    assert (txs + [Ledger.RefundFor(sub, txId, now, toBalance)])[..|txs|] == txs;
  }

  datatype Rollup = Rollup(
    transactions: seq<FinancialTransaction>,
    expenses: seq<Expense>,
    income: Money,
    expensesTotal: Money,
    profit: Money)

  /** filteredData: the rows of the period and their totals. */
  function FilteredData(txs: seq<FinancialTransaction>, exps: seq<Expense>, b: Bounds): Rollup {
    var ts := Filter(txs, (t: FinancialTransaction) => InPeriod(t.date, b));
    var es := Filter(exps, (e: Expense) => InPeriod(e.date, b));
    var income := IncomeOf(ts);
    var spent := ExpensesTotal(es);
    Rollup(ts, es, income, spent, income - spent)
  }

  /**
   * The rollup lists exactly the rows dated within the period, and its profit
   * is the period's payments less its refunds less its expenses.
   */
  lemma RollupMeaning(txs: seq<FinancialTransaction>, exps: seq<Expense>, b: Bounds)
    ensures var r := FilteredData(txs, exps, b);
      (forall t :: t in r.transactions <==> t in txs && InPeriod(t.date, b))
      && (forall e :: e in r.expenses <==> e in exps && InPeriod(e.date, b))
      && r.profit == AmountSum(Filter(r.transactions, IsPayment)) - AmountSum(Filter(r.transactions, IsRefund))
                     - ExpensesTotal(r.expenses)
  {
    var r := FilteredData(txs, exps, b);
    IncomeIsPaymentsLessRefunds(r.transactions);
    forall t ensures t in r.transactions <==> t in txs && InPeriod(t.date, b) {
      if t in txs && InPeriod(t.date, b) {
        var i :| 0 <= i < |txs| && txs[i] == t;
        assert txs[i] in r.transactions;
      }
    }
    forall e ensures e in r.expenses <==> e in exps && InPeriod(e.date, b) {
      if e in exps && InPeriod(e.date, b) {
        var i :| 0 <= i < |exps| && exps[i] == e;
        assert exps[i] in r.expenses;
      }
    }
  }

  // ---------------------------------------------------------------------
  // The expense modal form.

  datatype Category = Rent | Salary | Supplies | Other

  /** The stored description of each category: its key. */
  function CategoryKey(c: Category): string {
    match c
    case Rent => "аренда"
    case Salary => "заработная плата"
    case Supplies => "приобретение расходников"
    case Other => "иное"
  }

  datatype ExpenseForm = ExpenseForm(date: string, category: Category, customDescription: string, amount: Money)

  /** What the form hands to onSave. */
  datatype ExpenseData = ExpenseData(date: string, description: string, amount: Money)

  /** The description: the category key, or the trimmed custom text for 'иное'. */
  function FormDescription(f: ExpenseForm): string {
    if f.category == Other then Trim(f.customDescription) else CategoryKey(f.category)
  }

  /** handleSubmit: saves only with a description, a positive amount and a date. */
  function SubmitExpense(f: ExpenseForm): Option<ExpenseData> {
    var description := FormDescription(f);
    if description != "" && f.amount > 0.0 && f.date != "" then Some(ExpenseData(f.date, description, f.amount))
    else None
  }

  /** The amount input: a negative number is replaced by 0. */
  function AmountInput(n: real): (r: Money)
    ensures r >= 0.0
    ensures n >= 0.0 ==> r == n
  {
    if n >= 0.0 then n else 0.0
  }

  /** The category a stored description opens the form with: its own key, or 'иное' with the text. */
  function LoadDescription(description: string): (Category, string) {
    if description == CategoryKey(Rent) then (Rent, "")
    else if description == CategoryKey(Salary) then (Salary, "")
    else if description == CategoryKey(Supplies) then (Supplies, "")
    else if description == CategoryKey(Other) then (Other, "")
    else (Other, description)
  }

  predicate IsCategoryKey(d: string) {
    exists c: Category :: CategoryKey(c) == d
  }

  lemma KeysAreTrimmed(c: Category)
    ensures Trim(CategoryKey(c)) == CategoryKey(c)
  {
    TrimOfTrimmed(CategoryKey(c));
  }

  /**
   * A saved expense is never blank and its description is trimmed; the form
   * saves exactly when the description, a positive amount and the date are there.
   */
  lemma SubmitExpenseRules(f: ExpenseForm)
    ensures SubmitExpense(f).Some? <==> FormDescription(f) != "" && f.amount > 0.0 && f.date != ""
    ensures SubmitExpense(f).Some? ==>
      var d := SubmitExpense(f).value;
      d.description != "" && Trim(d.description) == d.description && d.amount > 0.0 && d.date == f.date
  {
    if f.category == Other {
      TrimOfTrimmed(Trim(f.customDescription));
    } else {
      KeysAreTrimmed(f.category);
    }
  }

  /**
   * Opening a stored expense in the form and saving it unchanged keeps its
   * description, up to the trim of a custom text; the literal 'иное' comes back
   * empty and is refused.
   */
  lemma LoadThenSubmit(date: string, description: string, amount: Money)
    requires date != "" && amount > 0.0
    ensures var (c, custom) := LoadDescription(description);
      var r := SubmitExpense(ExpenseForm(date, c, custom, amount));
      if description == CategoryKey(Other) then r.None?
      else if IsCategoryKey(description) then r == Some(ExpenseData(date, description, amount))
      else r == (if Trim(description) == "" then None else Some(ExpenseData(date, Trim(description), amount)))
  {
    if IsCategoryKey(description) {
      var c: Category :| CategoryKey(c) == description;
      LoadKey(c);
      if c == Other {
        TrimOfTrimmed("");
      }
    } else {
      assert description != CategoryKey(Rent) && description != CategoryKey(Salary);
      assert description != CategoryKey(Supplies) && description != CategoryKey(Other);
      assert LoadDescription(description) == (Other, description);
    }
  }

  /** A category key opens the form on its own category with no custom text. */
  lemma LoadKey(c: Category)
    ensures LoadDescription(CategoryKey(c)) == (c, "")
  {
  }

  // ---------------------------------------------------------------------
  // The inline new-expense row.

  /** The inline row keeps the amount as the text typed. */
  datatype NewExpenseForm = NewExpenseForm(date: string, category: Category, customDescription: string, amount: string)

  /** What addExpense receives: an omitted date lets the store use today. */
  datatype ExpenseDraft = ExpenseDraft(date: Option<string>, description: string, amount: Money)

  const InitialNewExpense: NewExpenseForm := NewExpenseForm("", Rent, "", "")

  /**
   * handleAddNewExpense: `parseFloat` turns the amount text into a number
   * (None for NaN).  An empty description or an amount that is missing, zero or
   * negative is refused with the form unchanged; otherwise the draft is sent and
   * the form goes back to its initial values.
   */
  function AddNewExpense(f: NewExpenseForm, parseFloat: string -> Option<real>): (Option<ExpenseDraft>, NewExpenseForm) {
    var amount := parseFloat(f.amount);
    var description := if f.category == Other then Trim(f.customDescription) else CategoryKey(f.category);
    if description == "" || amount.None? || amount.value == 0.0 || amount.value <= 0.0 then (None, f)
    else (Some(ExpenseDraft(if f.date == "" then None else Some(f.date), description, amount.value)), InitialNewExpense)
  }

  /** The inline row adds exactly when its description is non-empty and its amount positive, then resets. */
  lemma AddNewExpenseRules(f: NewExpenseForm, parseFloat: string -> Option<real>)
    ensures var (draft, after) := AddNewExpense(f, parseFloat);
      var description := if f.category == Other then Trim(f.customDescription) else CategoryKey(f.category);
      (draft.Some? <==> description != "" && parseFloat(f.amount).Some? && parseFloat(f.amount).value > 0.0)
      && (draft.None? ==> after == f)
      && (draft.Some? ==> after == InitialNewExpense && draft.value.amount > 0.0
                          && draft.value.description == description
                          && (draft.value.date.None? <==> f.date == ""))
  {
  }
}
