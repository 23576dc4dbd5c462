/** The pricing tool's calculation engine: the seasonal usage curve, the
    monthly breakdown, the annual summary and the break-even rule.
    Money and usage are exact reals. */
module PricingTool {
  import opened Rounding

  /** The seven inputs of a comparison: yearly usage in therms, the two
      plans' per-therm rates and monthly fees, and the one-time switching
      incentive and exit fee. */
  datatype Scenario = Scenario(
    annualUsage: real,
    currentRate: real,
    newRate: real,
    currentFee: real,
    newFee: real,
    incentive: real,
    exitFee: real)
  {
    /** Every input is non-negative; the engine itself does not check this. */
    predicate Valid() {
      annualUsage >= 0.0 && currentRate >= 0.0 && newRate >= 0.0 &&
      currentFee >= 0.0 && newFee >= 0.0 && incentive >= 0.0 && exitFee >= 0.0
    }
  }

  /** The figures the tool starts with. */
  const DefaultScenario := Scenario(1580.0, 0.619, 0.549, 6.75, 5.95, 100.0, 150.0)

  /** One entry of the seasonal curve: the share of a year's usage that
      falls in a month. */
  datatype MonthShare = MonthShare(month: string, percentage: real)

  const MonthlyPercentages: seq<MonthShare> := [
    MonthShare("Jan", 0.15), MonthShare("Feb", 0.14), MonthShare("Mar", 0.12),
    MonthShare("Apr", 0.08), MonthShare("May", 0.05), MonthShare("Jun", 0.04),
    MonthShare("Jul", 0.03), MonthShare("Aug", 0.03), MonthShare("Sep", 0.04),
    MonthShare("Oct", 0.07), MonthShare("Nov", 0.11), MonthShare("Dec", 0.14)
  ]

  function TotalFraction(table: seq<MonthShare>): real {
    if table == [] then 0.0 else table[0].percentage + TotalFraction(table[1..])
  }

  /** The seasonal curve has twelve months, no negative share, and its
      shares add up to exactly one year. */
  lemma SeasonalTableWellFormed()
    ensures |MonthlyPercentages| == 12
    ensures forall i :: 0 <= i < 12 ==> MonthlyPercentages[i].percentage >= 0.0
    ensures TotalFraction(MonthlyPercentages) == 1.0
  {
    var t := MonthlyPercentages;
    assert TotalFraction(t[11..]) == 0.14;
    assert TotalFraction(t[10..]) == 0.25;
    assert TotalFraction(t[9..]) == 0.32;
    assert TotalFraction(t[8..]) == 0.36;
    assert TotalFraction(t[7..]) == 0.39;
    assert TotalFraction(t[6..]) == 0.42;
    assert TotalFraction(t[5..]) == 0.46;
    assert TotalFraction(t[4..]) == 0.51;
    assert TotalFraction(t[3..]) == 0.59;
    assert TotalFraction(t[2..]) == 0.71;
    assert TotalFraction(t[1..]) == 0.85;
  }

  // ---------------------------------------------------------------------
  // Monthly breakdown

  /** A month's usage and costs before any rounding. */
  function ExactTherms(item: MonthShare, s: Scenario): real {
    s.annualUsage * item.percentage
  }

  function ExactCurrentCost(item: MonthShare, s: Scenario): real {
    ExactTherms(item, s) * s.currentRate + s.currentFee
  }

  function ExactNewCost(item: MonthShare, s: Scenario): real {
    ExactTherms(item, s) * s.newRate + s.newFee
  }

  /** A row of the monthly table: the month's label and share, kept from
      the curve, with its rounded usage and cent-rounded amounts. */
  datatype MonthlyRecord = MonthlyRecord(
    month: string,
    percentage: real,
    therms: int,
    currentCost: real,
    newCost: real,
    savings: real)

  /** One month of the breakdown. Usage is rounded to whole therms; each
      amount is rounded to whole cents from its exact value, the savings
      from the exact difference, not from the two rounded costs. */
  function MonthlyRow(item: MonthShare, s: Scenario): (r: MonthlyRecord)
    ensures r.month == item.month && r.percentage == item.percentage
    ensures ExactTherms(item, s) - 0.5 < r.therms as real <= ExactTherms(item, s) + 0.5
    ensures WholeCents(r.currentCost) && WholeCents(r.newCost) && WholeCents(r.savings)
    ensures ExactCurrentCost(item, s) - 0.005 < r.currentCost <= ExactCurrentCost(item, s) + 0.005
    ensures ExactNewCost(item, s) - 0.005 < r.newCost <= ExactNewCost(item, s) + 0.005
    ensures var d := ExactCurrentCost(item, s) - ExactNewCost(item, s);
            d - 0.005 < r.savings <= d + 0.005
  {
    var therms := ExactTherms(item, s);
    var currentCost := therms * s.currentRate + s.currentFee;
    var newCost := therms * s.newRate + s.newFee;
    var savings := currentCost - newCost;
    MonthlyRecord(item.month, item.percentage, RoundHalfUp(therms),
                  RoundCents(currentCost), RoundCents(newCost), RoundCents(savings))
  }

  /** The monthly table: one row per entry of the curve, in its order. */
  function MonthlyBreakdown(table: seq<MonthShare>, s: Scenario): (r: seq<MonthlyRecord>)
    requires s.Valid()
    ensures |r| == |table|
    ensures forall i :: 0 <= i < |table| ==> r[i] == MonthlyRow(table[i], s)
  {
    if table == [] then [] else [MonthlyRow(table[0], s)] + MonthlyBreakdown(table[1..], s)
  }

  /** When both plans charge the same rate and fee, every month saves 0. */
  lemma MonthlySavingsZeroForEqualPlans(item: MonthShare, s: Scenario)
    requires s.currentRate == s.newRate && s.currentFee == s.newFee
    ensures MonthlyRow(item, s).savings == 0.0
    ensures MonthlyRow(item, s).currentCost == MonthlyRow(item, s).newCost
  {
    assert ExactCurrentCost(item, s) - ExactNewCost(item, s) == 0.0;
    RoundCentsOfWholeCents(0.0);
  }

  function TotalExactTherms(table: seq<MonthShare>, s: Scenario): real {
    if table == [] then 0.0 else ExactTherms(table[0], s) + TotalExactTherms(table[1..], s)
  }

  function TotalExactCost(table: seq<MonthShare>, s: Scenario, rate: real, fee: real): real {
    if table == [] then 0.0
    else ExactTherms(table[0], s) * rate + fee + TotalExactCost(table[1..], s, rate, fee)
  }

  function TotalTherms(rows: seq<MonthlyRecord>): int {
    if rows == [] then 0 else rows[0].therms + TotalTherms(rows[1..])
  }

  lemma {:induction false} TotalExactThermsIsShare(table: seq<MonthShare>, s: Scenario)
    ensures TotalExactTherms(table, s) == s.annualUsage * TotalFraction(table)
  {
    if table != [] {
      TotalExactThermsIsShare(table[1..], s);
      calc {
        TotalExactTherms(table, s);
        s.annualUsage * table[0].percentage + s.annualUsage * TotalFraction(table[1..]);
        s.annualUsage * (table[0].percentage + TotalFraction(table[1..]));
      }
    }
  }

  lemma {:induction false} TotalExactCostIsShare(table: seq<MonthShare>, s: Scenario, rate: real, fee: real)
    ensures TotalExactCost(table, s, rate, fee)
            == TotalExactTherms(table, s) * rate + fee * (|table| as real)
  {
    if table != [] {
      TotalExactCostIsShare(table[1..], s, rate, fee);
      var a, rest := ExactTherms(table[0], s), TotalExactTherms(table[1..], s);
      assert a * rate + rest * rate == (a + rest) * rate;
    }
  }

  /** Over the seasonal curve, the unrounded monthly usages add up to the
      annual usage and the unrounded monthly costs to the annual costs. */
  lemma MonthlyTotalsMatchAnnual(s: Scenario)
    ensures TotalExactTherms(MonthlyPercentages, s) == s.annualUsage
    ensures TotalExactCost(MonthlyPercentages, s, s.currentRate, s.currentFee) == AnnualCurrentCost(s)
    ensures TotalExactCost(MonthlyPercentages, s, s.newRate, s.newFee) == AnnualNewCost(s)
  {
    SeasonalTableWellFormed();
    FullYearCost(MonthlyPercentages, s, s.currentRate, s.currentFee);
  }

  /** Each month's rounding moves its usage by at most half a therm, so the
      rounded usages of a table of n months lie within n/2 of the exact total. */
  lemma {:induction false} RoundedThermsDrift(table: seq<MonthShare>, s: Scenario)
    requires s.Valid()
    ensures var total := TotalTherms(MonthlyBreakdown(table, s)) as real;
            var exact := TotalExactTherms(table, s);
            exact - 0.5 * (|table| as real) <= total <= exact + 0.5 * (|table| as real)
  {
    if table != [] {
      RoundedThermsDrift(table[1..], s);
      var rows := MonthlyBreakdown(table, s);
      assert rows[1..] == MonthlyBreakdown(table[1..], s);
    }
  }

  /** The twelve rounded monthly usages add up to within 6 therms of the
      annual usage; the table does not correct the difference. */
  lemma SeasonalUsageDrift(s: Scenario)
    requires s.Valid()
    ensures var total := TotalTherms(MonthlyBreakdown(MonthlyPercentages, s)) as real;
            s.annualUsage - 6.0 <= total <= s.annualUsage + 6.0
  {
    SeasonalTableWellFormed();
    MonthlyTotalsMatchAnnual(s);
    RoundedThermsDrift(MonthlyPercentages, s);
  }

  /** The drift does happen: at 10 therms a year the months round to 9. */
  lemma SeasonalUsageDriftOccurs(s: Scenario)
    requires s.Valid() && s.annualUsage == 10.0
    ensures TotalTherms(MonthlyBreakdown(MonthlyPercentages, s)) == 9
  {
    var rows := MonthlyBreakdown(MonthlyPercentages, s);
    var expected := [2, 1, 1, 1, 1, 0, 0, 0, 0, 1, 1, 1];
    var t := MonthlyPercentages;
    assert rows[0].therms == 2 by { RoundHalfUpUnique(ExactTherms(t[0], s), 2); }
    assert rows[1].therms == 1 by { RoundHalfUpUnique(ExactTherms(t[1], s), 1); }
    assert rows[2].therms == 1 by { RoundHalfUpUnique(ExactTherms(t[2], s), 1); }
    assert rows[3].therms == 1 by { RoundHalfUpUnique(ExactTherms(t[3], s), 1); }
    assert rows[4].therms == 1 by { RoundHalfUpUnique(ExactTherms(t[4], s), 1); }
    assert rows[5].therms == 0 by { RoundHalfUpUnique(ExactTherms(t[5], s), 0); }
    assert rows[6].therms == 0 by { RoundHalfUpUnique(ExactTherms(t[6], s), 0); }
    assert rows[7].therms == 0 by { RoundHalfUpUnique(ExactTherms(t[7], s), 0); }
    assert rows[8].therms == 0 by { RoundHalfUpUnique(ExactTherms(t[8], s), 0); }
    assert rows[9].therms == 1 by { RoundHalfUpUnique(ExactTherms(t[9], s), 1); }
    assert rows[10].therms == 1 by { RoundHalfUpUnique(ExactTherms(t[10], s), 1); }
    assert rows[11].therms == 1 by { RoundHalfUpUnique(ExactTherms(t[11], s), 1); }
    TotalThermsOf(rows, expected);
  }

  function SumInts(xs: seq<int>): int {
    if xs == [] then 0 else xs[0] + SumInts(xs[1..])
  }

  lemma {:induction false} TotalThermsOf(rows: seq<MonthlyRecord>, ts: seq<int>)
    requires |rows| == |ts|
    requires forall i :: 0 <= i < |rows| ==> rows[i].therms == ts[i]
    ensures TotalTherms(rows) == SumInts(ts)
  {
    if rows != [] {
      TotalThermsOf(rows[1..], ts[1..]);
    }
  }

  // ---------------------------------------------------------------------
  // Annual summary and break-even

  /** Annual costs come straight from the annual inputs, the monthly fee
      counted twelve times; they are not sums of the monthly rows. */
  function AnnualCurrentCost(s: Scenario): (c: real)
    ensures c == TotalExactCost(MonthlyPercentages, s, s.currentRate, s.currentFee)
  {
    AnnualCostIsMonthlySum(s, s.currentRate, s.currentFee);
    s.annualUsage * s.currentRate + s.currentFee * 12.0
  }

  function AnnualNewCost(s: Scenario): (c: real)
    ensures c == TotalExactCost(MonthlyPercentages, s, s.newRate, s.newFee)
  {
    AnnualCostIsMonthlySum(s, s.newRate, s.newFee);
    s.annualUsage * s.newRate + s.newFee * 12.0
  }

  /** The direct annual formula is the sum of the twelve unrounded monthly
      costs of a plan. */
  lemma AnnualCostIsMonthlySum(s: Scenario, rate: real, fee: real)
    ensures TotalExactCost(MonthlyPercentages, s, rate, fee) == s.annualUsage * rate + fee * 12.0
  {
    SeasonalTableWellFormed();
    FullYearCost(MonthlyPercentages, s, rate, fee);
  }

  /** Over any twelve-month table whose shares sum to one, the unrounded
      monthly usages add up to the annual usage and the costs to
      annualUsage × rate + 12 × fee. */
  lemma FullYearCost(table: seq<MonthShare>, s: Scenario, rate: real, fee: real)
    requires |table| == 12 && TotalFraction(table) == 1.0
    ensures TotalExactTherms(table, s) == s.annualUsage
    ensures TotalExactCost(table, s, rate, fee) == s.annualUsage * rate + fee * 12.0
  {
    TotalExactThermsIsShare(table, s);
    TotalExactCostIsShare(table, s, rate, fee);
    assert s.annualUsage * 1.0 == s.annualUsage;
  }

  /** How long the savings take to pay back the exit fee. */
  datatype BreakEven =
    | Immediate        // no exit fee to recover
    | Months(n: nat)   // the first month by which savings cover the fee
    | Never            // there is an exit fee and the new plan saves nothing

  /** The break-even rule. With an exit fee and positive savings the answer
      is ceil(exitFee / (annualSavings / 12)); without savings there is no
      finite answer. */
  function BreakEvenRule(exitFee: real, annualSavings: real): (b: BreakEven)
    ensures exitFee <= 0.0 <==> b == Immediate
    ensures b == Never <==> exitFee > 0.0 && annualSavings <= 0.0
    ensures b.Months? ==> b.n >= 1
  {
    if exitFee > 0.0 then
      if annualSavings > 0.0 then
        var m := Ceil(exitFee / (annualSavings / 12.0));
        assert exitFee / (annualSavings / 12.0) > 0.0;
        Months(m)
      else Never
    else Immediate
  }

  /** Months(n) is the least whole number of months whose savings,
      at annualSavings / 12 a month, reach the exit fee. */
  lemma BreakEvenIsLeastMonth(exitFee: real, annualSavings: real)
    requires exitFee > 0.0 && annualSavings > 0.0
    ensures BreakEvenRule(exitFee, annualSavings).Months?
    ensures var n := BreakEvenRule(exitFee, annualSavings).n;
            n as real * (annualSavings / 12.0) >= exitFee &&
            (n - 1) as real * (annualSavings / 12.0) < exitFee
  {
    var monthly := annualSavings / 12.0;
    var x := exitFee / monthly;
    var n := Ceil(x);
    assert x * monthly == exitFee;
    MultiplyBoth(x, n as real, monthly);
    assert (n - 1) as real < x;
    MultiplyStrict((n - 1) as real, x, monthly);
    assert (n - 1) as real * monthly < exitFee;
    assert n == BreakEvenRule(exitFee, annualSavings).n;
  }

  /** The same answer, stated over the annual figure: ceil(12 * exitFee / annualSavings). */
  lemma BreakEvenFromAnnual(exitFee: real, annualSavings: real)
    requires exitFee > 0.0 && annualSavings > 0.0
    ensures BreakEvenRule(exitFee, annualSavings) == Months(Ceil(12.0 * exitFee / annualSavings))
  {
    assert exitFee / (annualSavings / 12.0) == 12.0 * exitFee / annualSavings;
  }

  /** Larger annual savings never lengthen the break-even period. */
  lemma BreakEvenMonotone(exitFee: real, smaller: real, larger: real)
    requires exitFee > 0.0 && 0.0 < smaller <= larger
    ensures BreakEvenRule(exitFee, larger).n <= BreakEvenRule(exitFee, smaller).n
  {
    var xs := exitFee / (smaller / 12.0);
    var xl := exitFee / (larger / 12.0);
    DivideByLarger(exitFee, smaller / 12.0, larger / 12.0);
    CeilMonotone(xl, xs);
  }

  lemma MultiplyBoth(a: real, b: real, c: real)
    requires a <= b && c >= 0.0
    ensures a * c <= b * c
  {
  }

  lemma MultiplyStrict(a: real, b: real, c: real)
    requires a < b && c > 0.0
    ensures a * c < b * c
  {
  }

  lemma DivideByLarger(e: real, d1: real, d2: real)
    requires e >= 0.0 && 0.0 < d1 <= d2
    ensures e / d2 <= e / d1
  {
    assert e / d2 * d2 == e == e / d1 * d1;
    MultiplyBoth(d1, d2, e / d1);
    if e / d2 > e / d1 {
      MultiplyStrict(e / d1, e / d2, d2);
      assert false;
    }
  }

  /** The annual figures the tool shows. */
  datatype AnnualSummary = AnnualSummary(
    annualCurrentCost: real,
    annualNewCost: real,
    annualSavings: real,
    netFirstYearSavings: real,
    breakEvenMonths: BreakEven)

  function Summarize(s: Scenario): (r: AnnualSummary)
    requires s.Valid()
    ensures r.annualSavings
            == s.annualUsage * (s.currentRate - s.newRate) + 12.0 * (s.currentFee - s.newFee)
    ensures r.annualCurrentCost == s.annualUsage * s.currentRate + 12.0 * s.currentFee
    ensures r.annualNewCost == s.annualUsage * s.newRate + 12.0 * s.newFee
    ensures r.annualCurrentCost == TotalExactCost(MonthlyPercentages, s, s.currentRate, s.currentFee)
    ensures r.annualNewCost == TotalExactCost(MonthlyPercentages, s, s.newRate, s.newFee)
    ensures r.annualSavings == r.annualCurrentCost - r.annualNewCost
    ensures r.netFirstYearSavings == r.annualSavings + s.incentive - s.exitFee
    ensures r.annualCurrentCost >= 0.0 && r.annualNewCost >= 0.0
    ensures r.breakEvenMonths == BreakEvenRule(s.exitFee, r.annualSavings)
  {
    var annualCurrentCost := AnnualCurrentCost(s);
    var annualNewCost := AnnualNewCost(s);
    var annualSavings := annualCurrentCost - annualNewCost;
    var netFirstYearSavings := annualSavings + s.incentive - s.exitFee;
    assert annualSavings
           == s.annualUsage * s.currentRate - s.annualUsage * s.newRate
              + 12.0 * (s.currentFee - s.newFee);
    AnnualSummary(annualCurrentCost, annualNewCost, annualSavings, netFirstYearSavings,
                  BreakEvenRule(s.exitFee, annualSavings))
  }

  /** With no exit fee the switch pays off at once, whatever it saves. */
  lemma ImmediateWithoutExitFee(s: Scenario)
    requires s.Valid() && s.exitFee == 0.0
    ensures Summarize(s).breakEvenMonths == Immediate
  {
  }

  /** The summary of the default inputs, in exact arithmetic. */
  lemma DefaultSummary()
    ensures DefaultScenario.Valid()
    ensures var r := Summarize(DefaultScenario);
            r.annualCurrentCost == 1059.02 && r.annualNewCost == 938.82 &&
            r.annualSavings == 120.20 && r.netFirstYearSavings == 70.20 &&
            r.breakEvenMonths == Months(15)
  {
    var r := Summarize(DefaultScenario);
    BreakEvenFromAnnual(150.0, r.annualSavings);
    assert 12.0 * 150.0 / 120.20 <= 15.0 < 12.0 * 150.0 / 120.20 + 1.0;
    assert Ceil(12.0 * 150.0 / 120.20) == 15;
  }

  /** January at the default inputs: 237 therms, $153.45 against $136.06,
      saving $17.39. */
  lemma DefaultJanuaryRow()
    ensures MonthlyRow(MonthlyPercentages[0], DefaultScenario)
            == MonthlyRecord("Jan", 0.15, 237, 153.45, 136.06, 17.39)
  {
    var item, s := MonthlyPercentages[0], DefaultScenario;
    assert ExactTherms(item, s) == 237.0;
    RoundHalfUpUnique(237.0, 237);
    RoundHalfUpUnique(15345.3, 15345);
    RoundHalfUpUnique(13606.3, 13606);
    RoundHalfUpUnique(1739.0, 1739);
  }

  // ---------------------------------------------------------------------
  // The break-even expression as written

  /** The value line 50 computes: a month count, or +Infinity after a
      division by zero savings. */
  datatype JsMonths = Finite(n: int) | PositiveInfinity

  /** exitFee > 0 ? Math.ceil(exitFee / (annualSavings / 12)) : 0, with no
      guard on the sign of annualSavings. */
  function BreakEvenAsWritten(exitFee: real, annualSavings: real): (v: JsMonths)
    ensures exitFee <= 0.0 ==> v == Finite(0)
    ensures exitFee > 0.0 && annualSavings == 0.0 ==> v == PositiveInfinity
    ensures exitFee > 0.0 && annualSavings != 0.0 ==>
              v.Finite? &&
              v.n as real - 1.0 < 12.0 * exitFee / annualSavings <= v.n as real
  {
    if exitFee > 0.0 then
      if annualSavings == 0.0 then PositiveInfinity
      else
        assert exitFee / (annualSavings / 12.0) == 12.0 * exitFee / annualSavings;
        Finite(Ceil(exitFee / (annualSavings / 12.0)))
    else Finite(0)
  }

  /** The summary card shows "Immediate" unless the value is above 0;
      +Infinity is above 0 and is shown as a number of months. */
  predicate ShownAsImmediate(v: JsMonths): (shown: bool)
    ensures v == PositiveInfinity ==> !shown
    ensures v.Finite? ==> (shown <==> v.n <= 0)
  {
    v.Finite? && v.n <= 0
  }

  /** Over all inputs, the card reads "Immediate" exactly when there is no
      exit fee or the new plan costs more. */
  lemma AsWrittenShownImmediateExactly(exitFee: real, annualSavings: real)
    requires exitFee >= 0.0
    ensures ShownAsImmediate(BreakEvenAsWritten(exitFee, annualSavings))
            <==> exitFee == 0.0 || annualSavings < 0.0
  {
    if exitFee > 0.0 && annualSavings != 0.0 {
      var x := exitFee / (annualSavings / 12.0);
      if annualSavings < 0.0 {
        assert x < 0.0;
        CeilIsLeast(x, 0);
      } else {
        assert x > 0.0;
      }
    }
  }

  /** Where the guarded rule gives a number, the expression as written gives
      the same one. */
  lemma AsWrittenAgreesWhenDefined(exitFee: real, annualSavings: real)
    requires exitFee <= 0.0 || annualSavings > 0.0
    ensures var b := BreakEvenRule(exitFee, annualSavings);
            var v := BreakEvenAsWritten(exitFee, annualSavings);
            (b == Immediate ==> v == Finite(0)) && (b.Months? ==> v == Finite(b.n))
  {
  }

  /** When the new plan costs more and there is an exit fee, line 50 yields
      a count of zero or less and the card reads "Immediate", although the
      fee is never recovered; the guarded rule answers Never. */
  lemma AsWrittenShowsLossAsImmediate(s: Scenario)
    requires s.Valid() && s.exitFee > 0.0
    requires AnnualCurrentCost(s) < AnnualNewCost(s)
    ensures ShownAsImmediate(BreakEvenAsWritten(s.exitFee, AnnualCurrentCost(s) - AnnualNewCost(s)))
    ensures Summarize(s).breakEvenMonths == Never
  {
    var savings := AnnualCurrentCost(s) - AnnualNewCost(s);
    var x := s.exitFee / (savings / 12.0);
    assert x < 0.0;
    CeilIsLeast(x, 0);
  }

  /** One such input: the new plan's rate is higher, every other input is equal. */
  lemma AsWrittenLossExample()
    ensures var s := Scenario(1000.0, 0.5, 0.6, 6.0, 6.0, 0.0, 150.0);
            BreakEvenAsWritten(s.exitFee, Summarize(s).annualSavings) == Finite(-18) &&
            Summarize(s).breakEvenMonths == Never
  {
    var s := Scenario(1000.0, 0.5, 0.6, 6.0, 6.0, 0.0, 150.0);
    assert Summarize(s).annualSavings == -100.0;
    assert 150.0 / (-100.0 / 12.0) == -18.0;
    assert Ceil(-18.0) == -18;
  }
}
