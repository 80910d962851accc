/** Worked cases of the projection and of break-even detection, each fixed
    by the general definitions and contracts of CareerCalc. */
module CareerCalcExamples {
  import opened CareerCalc

  /** No education, salary 100 with a 10% raise over three years: 100, then
      100 + 110, then 210 + 121. */
  lemma CompoundingExample()
    ensures Projection(CareerProfile(0, 0.0, 100.0, 0.1, 3)) == [100.0, 210.0, 331.0]
  {
    var p := CareerProfile(0, 0.0, 100.0, 0.1, 3);
    assert Salary(p, 1) == 110.0;
    assert Salary(p, 2) == 121.0;
    assert SalarySum(p, 3) == 331.0;
  }

  /** Two education years at 50, then one working year with no salary. */
  lemma EducationCostExample()
    ensures Projection(CareerProfile(2, 50.0, 0.0, 0.0, 1)) == [-50.0, -100.0, -100.0]
  {
    var p := CareerProfile(2, 50.0, 0.0, 0.0, 1);
    assert SalarySum(p, 1) == 0.0;
  }

  /** A raise below -100% makes the salary alternate in sign, so the working
      segment can fall although the starting salary is positive. */
  lemma AlternatingSalaryExample()
    ensures Projection(CareerProfile(0, 0.0, 100.0, -3.0, 2)) == [100.0, -100.0]
  {
    var p := CareerProfile(0, 0.0, 100.0, -3.0, 2);
    assert Salary(p, 1) == -200.0;
    assert SalarySum(p, 2) == -100.0;
  }

  /** With no education the first entry is the starting salary. */
  lemma NoEducationStartsWithSalary(p: CareerProfile)
    requires p.collegeYears == 0 && p.workingYears > 0
    ensures Projection(p)[0] == p.startingSalary
  {
    FirstWorkingEntry(p);
  }

  /** An empty series never breaks even with anything. */
  lemma EmptySeriesNeverBreaksEven(a: seq<real>)
    ensures NeverBreaksEven(a, []) && NeverBreaksEven([], a)
  {
  }

  /** B first catches up in year 2; a tie counts; B that stays behind never
      breaks even; years beyond the shorter series are not looked at; and an
      empty series gives None. */
  method BreakEvenExamples() {
    var r := FindBreakEven([100.0, 100.0, 100.0], [0.0, 50.0, 150.0]);
    assert IsFirstBreakEven([100.0, 100.0, 100.0], [0.0, 50.0, 150.0], 2);
    FirstBreakEvenUnique([100.0, 100.0, 100.0], [0.0, 50.0, 150.0], 2, r.value.0);
    assert r == Some((2, 150.0));

    r := FindBreakEven([100.0], [100.0]);
    assert IsFirstBreakEven([100.0], [100.0], 0);
    FirstBreakEvenUnique([100.0], [100.0], 0, r.value.0);
    assert r == Some((0, 100.0));

    r := FindBreakEven([100.0, 100.0], [0.0, 0.0]);
    assert r == None;

    r := FindBreakEven([100.0, 100.0], [0.0, 0.0, 0.0, 200.0, 0.0]);
    assert r == None;

    r := FindBreakEven([100.0], []);
    assert r == None;

    r := FindBreakEven([], [100.0]);
    assert r == None;
  }
}
