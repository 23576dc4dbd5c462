/** The sensitivity table: the annual figures recomputed at five usage
    levels around the scenario's own usage. */
module Sensitivity {
  import opened Rounding
  import opened PricingTool

  datatype Option<T> = None | Some(value: T)

  /** A row of the table is either the scenario's usage scaled by a
      multiplier, or the Baseline, which reuses the annual totals. */
  datatype Level = Scaled(name: string, multiplier: real) | Baseline

  const Levels: seq<Level> := [
    Scaled("-20%", 0.8), Scaled("-10%", 0.9), Baseline, Scaled("+10%", 1.1), Scaled("+20%", 1.2)
  ]

  function Label(l: Level): string {
    match l
    case Scaled(name, _) => name
    case Baseline => "Baseline"
  }

  /** The usage multiplier a level stands for; the Baseline is the usage itself. */
  function Multiplier(l: Level): real {
    match l
    case Scaled(_, m) => m
    case Baseline => 1.0
  }

  /** A row of the table. The savings field is absent (None) until the
      second pass adds it. */
  datatype SensitivityRecord = SensitivityRecord(
    level: string,
    usage: real,
    currentCost: real,
    newCost: real,
    savings: Option<real>)

  /** A plan's annual cost at the scenario's usage scaled by m, the monthly
      fee counted twelve times. */
  function ScaledCost(s: Scenario, m: real, rate: real, fee: real): real {
    ScaledUsage(s, m) * rate + fee * 12.0
  }

  /** The scenario's usage scaled by m, before rounding. */
  function ScaledUsage(s: Scenario, m: real): real {
    s.annualUsage * m
  }

  /** One row as the array literal builds it. Scaled rows round their usage
      to whole therms; the Baseline row keeps the usage unrounded and takes
      its costs from the annual totals, which come to the scaled formula at
      multiplier 1. */
  function Row(l: Level, s: Scenario): (r: SensitivityRecord)
    ensures r.level == Label(l) && r.savings == None
    ensures l.Scaled? ==> r.usage == RoundHalfUp(ScaledUsage(s, l.multiplier)) as real
    ensures l.Baseline? ==> r.usage == s.annualUsage
    ensures r.currentCost == RoundCents(ScaledCost(s, Multiplier(l), s.currentRate, s.currentFee))
    ensures r.newCost == RoundCents(ScaledCost(s, Multiplier(l), s.newRate, s.newFee))
  {
    match l
    case Scaled(name, m) =>
      SensitivityRecord(name, RoundHalfUp(ScaledUsage(s, m)) as real,
                        RoundCents(ScaledCost(s, m, s.currentRate, s.currentFee)),
                        RoundCents(ScaledCost(s, m, s.newRate, s.newFee)),
                        None)
    case Baseline =>
      BaselineIsScaledAtOne(s);
      SensitivityRecord("Baseline", s.annualUsage,
                        RoundCents(AnnualCurrentCost(s)), RoundCents(AnnualNewCost(s)), None)
  }

  lemma BaselineIsScaledAtOne(s: Scenario)
    ensures ScaledCost(s, 1.0, s.currentRate, s.currentFee) == AnnualCurrentCost(s)
    ensures ScaledCost(s, 1.0, s.newRate, s.newFee) == AnnualNewCost(s)
  {
    assert ScaledUsage(s, 1.0) == s.annualUsage;
  }

  /** The rows before the savings pass, one per level, in the levels' order. */
  function BaseRows(levels: seq<Level>, s: Scenario): (r: seq<SensitivityRecord>)
    ensures |r| == |levels|
    ensures forall i :: 0 <= i < |levels| ==> r[i] == Row(levels[i], s)
  {
    if levels == [] then [] else [Row(levels[0], s)] + BaseRows(levels[1..], s)
  }

  /** The second pass on one row: savings is the cent-rounded difference of
      the row's already-rounded costs. */
  function WithSavings(row: SensitivityRecord): (r: SensitivityRecord)
    ensures r.level == row.level && r.usage == row.usage
    ensures r.currentCost == row.currentCost && r.newCost == row.newCost
    ensures r.savings.Some? && WholeCents(r.savings.value)
    ensures WholeCents(row.currentCost) && WholeCents(row.newCost) ==>
              r.savings == Some(row.currentCost - row.newCost)
  {
    DifferenceNeedsNoRounding(row.currentCost, row.newCost);
    row.(savings := Some(RoundCents(row.currentCost - row.newCost)))
  }

  lemma DifferenceNeedsNoRounding(a: real, b: real)
    ensures WholeCents(a) && WholeCents(b) ==> RoundCents(a - b) == a - b
  {
    if WholeCents(a) && WholeCents(b) {
      WholeCentsDifference(a, b);
      RoundCentsOfWholeCents(a - b);
    }
  }

  function AddedSavings(rows: seq<SensitivityRecord>): seq<SensitivityRecord> {
    seq(|rows|, i requires 0 <= i < |rows| => WithSavings(rows[i]))
  }

  /** The finished table. */
  function SensitivityTable(s: Scenario): (t: seq<SensitivityRecord>)
    requires s.Valid()
    ensures |t| == |Levels| == 5
    ensures forall i :: 0 <= i < |t| ==> t[i] == WithSavings(Row(Levels[i], s))
  {
    AddedSavings(BaseRows(Levels, s))
  }

  /** The savings pass, writing the field into each record in place. */
  method AddSavings(rows: array<SensitivityRecord>)
    modifies rows
    ensures rows[..] == AddedSavings(old(rows[..]))
  {
    var i := 0;
    while i < rows.Length
      invariant 0 <= i <= rows.Length
      invariant forall k :: 0 <= k < i ==> rows[k] == WithSavings(old(rows[k]))
      invariant forall k :: i <= k < rows.Length ==> rows[k] == old(rows[k])
    {
      rows[i] := WithSavings(rows[i]);
      i := i + 1;
    }
  }

  /** Builds the five rows and then adds their savings. */
  method ComputeSensitivity(s: Scenario) returns (rows: array<SensitivityRecord>)
    requires s.Valid()
    ensures fresh(rows)
    ensures rows[..] == SensitivityTable(s)
  {
    rows := new SensitivityRecord[] [
      Row(Scaled("-20%", 0.8), s),
      Row(Scaled("-10%", 0.9), s),
      Row(Baseline, s),
      Row(Scaled("+10%", 1.1), s),
      Row(Scaled("+20%", 1.2), s)
    ];
    assert rows[..] == BaseRows(Levels, s);
    AddSavings(rows);
  }

  /** Five rows, labelled in increasing usage order, each with its savings. */
  lemma SensitivityShape(s: Scenario)
    requires s.Valid()
    ensures var t := SensitivityTable(s);
            |t| == 5 &&
            t[0].level == "-20%" && t[1].level == "-10%" && t[2].level == "Baseline" &&
            t[3].level == "+10%" && t[4].level == "+20%" &&
            forall i :: 0 <= i < 5 ==> t[i].savings.Some?
  {
  }

  /** Each row's savings is exactly the difference of its two rounded costs:
      the outer rounding changes nothing. */
  lemma SensitivitySavingsExact(s: Scenario)
    requires s.Valid()
    ensures var t := SensitivityTable(s);
            forall i :: 0 <= i < |t| ==>
              t[i].savings == Some(t[i].currentCost - t[i].newCost) && WholeCents(t[i].savings.value)
  {
    var t := SensitivityTable(s);
    var base := BaseRows(Levels, s);
    forall i | 0 <= i < |t|
      ensures t[i].savings == Some(t[i].currentCost - t[i].newCost)
    {
      WholeCentsDifference(base[i].currentCost, base[i].newCost);
      RoundCentsOfWholeCents(base[i].currentCost - base[i].newCost);
    }
  }

  /** The Baseline row carries the annual summary's costs, cent-rounded,
      and the unrounded annual usage; its savings is within a cent of the
      annual savings. */
  lemma BaselineMatchesSummary(s: Scenario)
    requires s.Valid()
    ensures var t := SensitivityTable(s);
            var a := Summarize(s);
            t[2].usage == s.annualUsage &&
            t[2].currentCost == RoundCents(a.annualCurrentCost) &&
            t[2].newCost == RoundCents(a.annualNewCost) &&
            t[2].savings == Some(t[2].currentCost - t[2].newCost) &&
            a.annualSavings - 0.01 < t[2].savings.value < a.annualSavings + 0.01
  {
    SensitivitySavingsExact(s);
  }

  /** The Baseline does not reproduce the summary's savings even after cent
      rounding: annual costs of 0.005 and 0.004 round to 0.01 and 0.00, so
      the Baseline saves 0.01 where the annual savings of 0.001 round to 0. */
  lemma BaselineSavingsOffByACent(s: Scenario)
    requires s.Valid() && s.annualUsage == 0.0
    requires s.currentFee == 0.005 / 12.0 && s.newFee == 0.004 / 12.0
    ensures SensitivityTable(s)[2].savings == Some(0.01)
    ensures RoundCents(Summarize(s).annualSavings) == 0.0
  {
    assert AnnualCurrentCost(s) == 0.005 && AnnualNewCost(s) == 0.004;
    RoundHalfUpUnique(0.005 * 100.0, 1);
    RoundHalfUpUnique(0.004 * 100.0, 0);
    var row := Row(Baseline, s);
    assert row.currentCost == 0.01 && row.newCost == 0.0;
    assert SensitivityTable(s)[2] == WithSavings(row);
    assert Summarize(s).annualSavings == 0.001;
    RoundHalfUpUnique(0.001 * 100.0, 0);
  }

  /** The Baseline's costs are what a scaled row at multiplier 1 would
      show; only its usage differs, being left unrounded. */
  lemma BaselineMatchesScaledFormula(s: Scenario, name: string)
    ensures Row(Baseline, s).currentCost == Row(Scaled(name, 1.0), s).currentCost
    ensures Row(Baseline, s).newCost == Row(Scaled(name, 1.0), s).newCost
    ensures Row(Scaled(name, 1.0), s).usage == RoundHalfUp(s.annualUsage) as real
  {
  }

  lemma ScaledCostMonotone(s: Scenario, m1: real, m2: real, rate: real, fee: real)
    requires s.annualUsage >= 0.0 && rate >= 0.0 && m1 <= m2
    ensures ScaledCost(s, m1, rate, fee) <= ScaledCost(s, m2, rate, fee)
  {
    var u := s.annualUsage;
    MultiplyBoth(m1, m2, u * rate);
    assert u * m1 * rate == m1 * (u * rate);
    assert u * m2 * rate == m2 * (u * rate);
  }

  /** Row costs are a function of the multiplier alone, so a row at a
      larger multiplier never costs less under either plan. */
  lemma RowCostsMonotone(s: Scenario, l1: Level, l2: Level)
    requires s.Valid() && Multiplier(l1) <= Multiplier(l2)
    ensures Row(l1, s).currentCost <= Row(l2, s).currentCost
    ensures Row(l1, s).newCost <= Row(l2, s).newCost
  {
    var m1, m2 := Multiplier(l1), Multiplier(l2);
    ScaledCostMonotone(s, m1, m2, s.currentRate, s.currentFee);
    ScaledCostMonotone(s, m1, m2, s.newRate, s.newFee);
    RoundCentsMonotone(ScaledCost(s, m1, s.currentRate, s.currentFee),
                       ScaledCost(s, m2, s.currentRate, s.currentFee));
    RoundCentsMonotone(ScaledCost(s, m1, s.newRate, s.newFee),
                       ScaledCost(s, m2, s.newRate, s.newFee));
  }

  /** With non-negative inputs, both plans' costs rise (weakly) down the table. */
  lemma SensitivityCostsMonotone(s: Scenario)
    requires s.Valid()
    ensures var t := SensitivityTable(s);
            forall i, j :: 0 <= i <= j < |t| ==>
              t[i].currentCost <= t[j].currentCost && t[i].newCost <= t[j].newCost
  {
    var t := SensitivityTable(s);
    forall i, j | 0 <= i <= j < |t|
      ensures t[i].currentCost <= t[j].currentCost && t[i].newCost <= t[j].newCost
    {
      RowCostsMonotone(s, Levels[i], Levels[j]);
    }
  }
}
