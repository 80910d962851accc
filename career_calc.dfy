/** Cumulative net earnings of a career path (education years followed by
    working years with compounding raises), and the first year in which one
    such path catches up with another.

    Money and the raise rate are exact `real`s; year counts are `nat`s. */
module CareerCalc {

  datatype Option<T> = None | Some(value: T)

  /** The five parameters of a career path. */
  datatype CareerProfile = CareerProfile(
    collegeYears: nat,
    collegeCostPerYear: real,
    startingSalary: real,
    annualRaise: real,
    workingYears: nat)

  // ---------------------------------------------------------------------------
  // Specification of the projection
  // ---------------------------------------------------------------------------

  /** b raised to the k-th power. */
  function Pow(b: real, k: nat): real {
    if k == 0 then 1.0 else Pow(b, k - 1) * b
  }

  /** The salary paid in working year j (0-based): the starting salary after j raises. */
  function Salary(p: CareerProfile, j: nat): real {
    p.startingSalary * Pow(1.0 + p.annualRaise, j)
  }

  /** Salary earned over the first j working years. */
  function SalarySum(p: CareerProfile, j: nat): real {
    if j == 0 then 0.0 else SalarySum(p, j - 1) + Salary(p, j - 1)
  }

  /** Cumulative net earnings after y elapsed years of the timeline:
      the education costs of the years spent in education so far, plus the
      salaries of the working years that followed them. */
  function NetAfter(p: CareerProfile, y: nat): real {
    if y <= p.collegeYears then -(y as real) * p.collegeCostPerYear
    else -(p.collegeYears as real) * p.collegeCostPerYear + SalarySum(p, y - p.collegeYears)
  }

  /** The earnings series of a career: entry i is the cumulative total at the end of year i.
      Lemmas that read an entry off this closed form (EducationEntry,
      WorkingEntry) only unfold it; the evidence that it describes the
      computation is CareerProjection's loop invariants and
      ProjectionIsRunningTotals, which ties it to the appended running totals. */
  function Projection(p: CareerProfile): seq<real> {
    seq(p.collegeYears + p.workingYears, i requires 0 <= i => NetAfter(p, i + 1))
  }

  // ---------------------------------------------------------------------------
  // Independent reference: the series as running totals of per-year deltas
  // ---------------------------------------------------------------------------

  /** What year y adds to the running total: minus the cost in an education
      year, the current salary in a working year. */
  function YearDelta(p: CareerProfile, y: nat): real {
    if y < p.collegeYears then -p.collegeCostPerYear else Salary(p, y - p.collegeYears)
  }

  /** The per-year deltas of the whole timeline. */
  function YearDeltas(p: CareerProfile): seq<real> {
    seq(p.collegeYears + p.workingYears, y requires 0 <= y => YearDelta(p, y))
  }

  /** Sum of a sequence, accumulated from the front. */
  function Total(ds: seq<real>): real {
    if ds == [] then 0.0 else Total(ds[..|ds| - 1]) + ds[|ds| - 1]
  }

  /** The list obtained by appending the running total after each delta. */
  function RunningTotals(ds: seq<real>): (t: seq<real>)
    ensures |t| == |ds|
  {
    if ds == [] then [] else RunningTotals(ds[..|ds| - 1]) + [Total(ds)]
  }

  // ---------------------------------------------------------------------------
  // The projection, as the source computes it
  // ---------------------------------------------------------------------------

  /** Education years subtract the cost from a running total; working years
      add the current salary, and only then raise it for the next year. */
  method CareerProjection(collegeYears: nat, collegeCostPerYear: real,
                          startingSalary: real, annualRaise: real,
                          workingYears: nat)
    returns (earnings: seq<real>)
    ensures |earnings| == collegeYears + workingYears
    ensures earnings == Projection(CareerProfile(collegeYears, collegeCostPerYear,
                                                 startingSalary, annualRaise, workingYears))
  {
    ghost var p := CareerProfile(collegeYears, collegeCostPerYear,
                                 startingSalary, annualRaise, workingYears);
    earnings := [];
    var total := 0.0;

    for i := 0 to collegeYears
      invariant |earnings| == i
      invariant total == NetAfter(p, i)
      invariant forall k :: 0 <= k < i ==> earnings[k] == NetAfter(p, k + 1)
    {
      NetAfterStep(p, i);
      total := total - collegeCostPerYear;
      earnings := earnings + [total];
    }

    var salary := startingSalary;
    for j := 0 to workingYears
      invariant |earnings| == collegeYears + j
      invariant salary == Salary(p, j)
      invariant total == NetAfter(p, collegeYears + j)
      invariant forall k :: 0 <= k < collegeYears + j ==> earnings[k] == NetAfter(p, k + 1)
    {
      NetAfterStep(p, collegeYears + j);
      total := total + salary;
      earnings := earnings + [total];
      SalaryRaise(p, j);
      salary := salary * (1.0 + annualRaise);
    }
  }

  // ---------------------------------------------------------------------------
  // Properties of the projection
  // ---------------------------------------------------------------------------

  /** Each year moves the cumulative total by exactly that year's delta. */
  lemma NetAfterStep(p: CareerProfile, y: nat)
    ensures NetAfter(p, y + 1) == NetAfter(p, y) + YearDelta(p, y)
  {
    var n := p.collegeYears;
    if y < n {
      assert NetAfter(p, y + 1) == -((y + 1) as real) * p.collegeCostPerYear;
      assert -((y + 1) as real) * p.collegeCostPerYear
          == -(y as real) * p.collegeCostPerYear - p.collegeCostPerYear;
    } else if y == n {
      assert SalarySum(p, 1) == Salary(p, 0);
    } else {
      assert y + 1 - n == (y - n) + 1;
    }
  }

  /** Raising the salary of working year j gives the salary of year j + 1. */
  lemma SalaryRaise(p: CareerProfile, j: nat)
    ensures Salary(p, j) * (1.0 + p.annualRaise) == Salary(p, j + 1)
  {
  }

  /** The total of the first y deltas is the cumulative total after y years. */
  lemma {:induction false} TotalOfDeltas(p: CareerProfile, y: nat)
    requires y <= p.collegeYears + p.workingYears
    ensures Total(YearDeltas(p)[..y]) == NetAfter(p, y)
  {
    if y > 0 {
      var ds := YearDeltas(p);
      assert ds[..y][..y - 1] == ds[..y - 1];
      TotalOfDeltas(p, y - 1);
      NetAfterStep(p, y - 1);
    }
  }

  /** Entry i of the running totals is the total of the first i + 1 deltas. */
  lemma {:induction false} RunningTotalsAt(ds: seq<real>, i: nat)
    requires i < |ds|
    ensures RunningTotals(ds)[i] == Total(ds[..i + 1])
  {
    if i < |ds| - 1 {
      var front := ds[..|ds| - 1];
      RunningTotalsAt(front, i);
      assert front[..i + 1] == ds[..i + 1];
    } else {
      assert ds[..i + 1] == ds;
    }
  }

  /** The series is the list of running totals of the per-year deltas: each
      entry is the previous entry plus that year's delta, the first one is
      the first delta, and nothing else is ever added. */
  lemma ProjectionIsRunningTotals(p: CareerProfile)
    ensures Projection(p) == RunningTotals(YearDeltas(p))
  {
    var e, t := Projection(p), RunningTotals(YearDeltas(p));
    forall i | 0 <= i < |e|
      ensures e[i] == t[i]
    {
      RunningTotalsAt(YearDeltas(p), i);
      TotalOfDeltas(p, i + 1);
    }
  }

  /** Successive entries differ by exactly one year's delta, and the first
      entry is the first year's delta alone. */
  lemma ProjectionStep(p: CareerProfile, i: nat)
    requires i < p.collegeYears + p.workingYears
    ensures Projection(p)[i] == (if i == 0 then 0.0 else Projection(p)[i - 1]) + YearDelta(p, i)
  {
    NetAfterStep(p, i);
  }

  /** Education year i leaves the total at minus (i + 1) years of cost. */
  lemma EducationEntry(p: CareerProfile, i: nat)
    requires i < p.collegeYears
    ensures Projection(p)[i] == -((i + 1) as real) * p.collegeCostPerYear
  {
  }

  /** With a non-negative cost the education segment never increases. */
  lemma EducationNonIncreasing(p: CareerProfile, i: nat, k: nat)
    requires p.collegeCostPerYear >= 0.0
    requires i <= k < p.collegeYears
    ensures Projection(p)[k] <= Projection(p)[i]
  {
  }

  /** The first working year adds the starting salary, unraised, to the
      total left by education. */
  lemma FirstWorkingEntry(p: CareerProfile)
    requires p.workingYears > 0
    ensures Projection(p)[p.collegeYears]
         == -(p.collegeYears as real) * p.collegeCostPerYear + p.startingSalary
  {
    assert SalarySum(p, 1) == p.startingSalary;
  }

  /** Working year j adds the starting salary raised j times to the previous
      entry (to the education total when j is the first working year). */
  lemma WorkingEntryStep(p: CareerProfile, j: nat)
    requires j < p.workingYears
    ensures Projection(p)[p.collegeYears + j]
         == (if p.collegeYears + j == 0 then 0.0 else Projection(p)[p.collegeYears + j - 1])
            + Salary(p, j)
  {
    ProjectionStep(p, p.collegeYears + j);
  }

  /** Working year j leaves the total at the education total plus the
      salaries of working years 0..j. */
  lemma WorkingEntry(p: CareerProfile, j: nat)
    requires j < p.workingYears
    ensures Projection(p)[p.collegeYears + j]
         == -(p.collegeYears as real) * p.collegeCostPerYear + SalarySum(p, j + 1)
  {
  }

  /** The salary sum is a geometric series: r * sum == s * ((1 + r)^j - 1). */
  lemma {:induction false} SalarySumGeometric(p: CareerProfile, j: nat)
    ensures SalarySum(p, j) * p.annualRaise
         == p.startingSalary * (Pow(1.0 + p.annualRaise, j) - 1.0)
  {
    if j > 0 {
      SalarySumGeometric(p, j - 1);
      var s, r := p.startingSalary, p.annualRaise;
      var q := Pow(1.0 + r, j - 1);
      var sum := SalarySum(p, j - 1);
      assert sum * r == s * (q - 1.0);
      assert SalarySum(p, j) == sum + s * q;
      assert Pow(1.0 + r, j) == q * (1.0 + r);
      calc {
        (sum + s * q) * r;
        sum * r + s * q * r;
        s * (q - 1.0) + s * q * r;
        s * (q * (1.0 + r) - 1.0);
      }
    }
  }

  /** With no raise the salary sum is j times the starting salary. */
  lemma {:induction false} SalarySumNoRaise(p: CareerProfile, j: nat)
    requires p.annualRaise == 0.0
    ensures SalarySum(p, j) == (j as real) * p.startingSalary
  {
    if j > 0 {
      SalarySumNoRaise(p, j - 1);
      PowOne(j - 1);
      assert Salary(p, j - 1) == p.startingSalary;
      assert ((j - 1) as real) * p.startingSalary + p.startingSalary
          == (j as real) * p.startingSalary;
    }
  }

  /** One raised to any power is one. */
  lemma {:induction false} PowOne(k: nat)
    ensures Pow(1.0, k) == 1.0
  {
    if k > 0 { PowOne(k - 1); }
  }

  /** A non-negative base has a non-negative power. */
  lemma {:induction false} PowNonNegative(b: real, k: nat)
    requires b >= 0.0
    ensures Pow(b, k) >= 0.0
  {
    if k > 0 {
      PowNonNegative(b, k - 1);
      assert Pow(b, k) == Pow(b, k - 1) * b;
    }
  }

  /** With a non-negative starting salary and a raise of at least -100%,
      every salary is non-negative. */
  lemma SalaryNonNegative(p: CareerProfile, j: nat)
    requires p.startingSalary >= 0.0 && p.annualRaise >= -1.0
    ensures Salary(p, j) >= 0.0
  {
    PowNonNegative(1.0 + p.annualRaise, j);
  }

  /** Under the same conditions the working segment never decreases. */
  lemma {:induction false} WorkingNonDecreasing(p: CareerProfile, i: nat, k: nat)
    requires p.startingSalary >= 0.0 && p.annualRaise >= -1.0
    requires p.collegeYears <= i <= k < p.collegeYears + p.workingYears
    ensures Projection(p)[i] <= Projection(p)[k]
  {
    if i < k {
      WorkingNonDecreasing(p, i, k - 1);
      ProjectionStep(p, k);
      SalaryNonNegative(p, k - p.collegeYears);
    }
  }

  /** A career with no working years only accumulates costs: every entry of
      its series is exactly one cost below the previous one, and with a
      non-negative cost every entry is at most zero. */
  lemma NoWorkingYears(p: CareerProfile, i: nat)
    requires p.workingYears == 0 && i < |Projection(p)|
    ensures p.collegeCostPerYear >= 0.0 ==> Projection(p)[i] <= 0.0
    ensures i > 0 ==> Projection(p)[i] == Projection(p)[i - 1] - p.collegeCostPerYear
  {
  }

  // ---------------------------------------------------------------------------
  // Break-even
  // ---------------------------------------------------------------------------

  /** year is within both series, B has reached A there, and B was behind A
      at every earlier year. */
  predicate IsFirstBreakEven(a: seq<real>, b: seq<real>, year: nat) {
    year < |a| && year < |b| && b[year] >= a[year]
    && forall k :: 0 <= k < year ==> b[k] < a[k]
  }

  /** B is behind A at every year both series cover. */
  predicate NeverBreaksEven(a: seq<real>, b: seq<real>) {
    forall k :: 0 <= k < |a| && k < |b| ==> b[k] < a[k]
  }

  /** Scans the overlap of the two series from year 0 and returns the first
      year at which B is at least A, with B's value there, or None. */
  method FindBreakEven(earningsA: seq<real>, earningsB: seq<real>)
    returns (r: Option<(nat, real)>)
    ensures r.Some? ==> IsFirstBreakEven(earningsA, earningsB, r.value.0)
                        && r.value.1 == earningsB[r.value.0]
    ensures r.None? <==> NeverBreaksEven(earningsA, earningsB)
  {
    var overlap := if |earningsA| <= |earningsB| then |earningsA| else |earningsB|;
    for year := 0 to overlap
      invariant forall k :: 0 <= k < year ==> earningsB[k] < earningsA[k]
    {
      if earningsB[year] >= earningsA[year] {
        return Some((year, earningsB[year]));
      }
    }
    return None;
  }

  /** The first break-even year is unique. */
  lemma FirstBreakEvenUnique(a: seq<real>, b: seq<real>, y1: nat, y2: nat)
    requires IsFirstBreakEven(a, b, y1) && IsFirstBreakEven(a, b, y2)
    ensures y1 == y2
  {
  }

  /** Exactly one of the two outcomes holds: either B never reaches A within
      the overlap, or there is a first year at which it does. */
  lemma {:induction false} BreakEvenExistsUnlessNever(a: seq<real>, b: seq<real>)
    ensures NeverBreaksEven(a, b) <==> !exists y: nat :: IsFirstBreakEven(a, b, y)
  {
    if !NeverBreaksEven(a, b) {
      var k :| 0 <= k < |a| && k < |b| && b[k] >= a[k];
      var y := LeastReached(a, b, k);
      assert IsFirstBreakEven(a, b, y);
    }
  }

  /** The least year at or before `bound` at which B has reached A. */
  lemma {:induction false} LeastReached(a: seq<real>, b: seq<real>, bound: nat) returns (y: nat)
    requires bound < |a| && bound < |b| && b[bound] >= a[bound]
    ensures y <= bound && IsFirstBreakEven(a, b, y)
  {
    y := 0;
    while b[y] < a[y]
      invariant y <= bound
      invariant forall k :: 0 <= k < y ==> b[k] < a[k]
      decreases bound - y
    {
      y := y + 1;
    }
  }
}
