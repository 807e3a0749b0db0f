/** The salary reducers of class `Main`: the sequential average and maximum,
    and the value the concurrent average reads once every thread has joined. */
module SalaryStats {
  import opened Wrappers
  import opened JavaInt
  import opened Agency

  /** Integer division by a list size of 0 throws `ArithmeticException`. */
  datatype ArithmeticException = DivideByZero

  /** The exact sum of the salaries, added left to right. */
  function SalarySum(vs: seq<Vacancy>): int {
    if |vs| == 0 then 0 else SalarySum(vs[..|vs| - 1]) + vs[|vs| - 1].salary
  }

  /** The sum of a concatenation is the sum of the sums. */
  lemma {:induction false} SalarySumConcat(a: seq<Vacancy>, b: seq<Vacancy>)
    ensures SalarySum(a + b) == SalarySum(a) + SalarySum(b)
    decreases |b|
  {
    if |b| > 0 {
      assert (a + b)[..|a + b| - 1] == a + b[..|b| - 1];
      SalarySumConcat(a, b[..|b| - 1]);
    } else {
      assert a + b == a;
    }
  }

  /** Taking one element out of a list takes its salary out of the sum. */
  lemma SalarySumRemove(vs: seq<Vacancy>, j: nat)
    requires j < |vs|
    ensures SalarySum(vs) == SalarySum(vs[..j] + vs[j + 1..]) + vs[j].salary
  {
    assert vs == vs[..j] + ([vs[j]] + vs[j + 1..]);
    SalarySumConcat(vs[..j], [vs[j]] + vs[j + 1..]);
    SalarySumConcat([vs[j]], vs[j + 1..]);
    SalarySumConcat(vs[..j], vs[j + 1..]);
    assert SalarySum([vs[j]]) == vs[j].salary by {
      assert [vs[j]][..0] == [];
    }
  }

  /** The sum does not depend on the order of the additions: any
      rearrangement of the same vacancies has the same total. */
  lemma {:induction false} SalarySumPermutation(a: seq<Vacancy>, b: seq<Vacancy>)
    requires multiset(a) == multiset(b)
    ensures SalarySum(a) == SalarySum(b)
    decreases |a|
  {
    if |a| == 0 {
      assert |b| == |multiset(b)| == 0;
    } else {
      var last := a[|a| - 1];
      assert a == a[..|a| - 1] + [last];
      assert last in multiset(b);
      var j :| 0 <= j < |b| && b[j] == last;
      var rest := b[..j] + b[j + 1..];
      assert b == b[..j] + [last] + b[j + 1..];
      assert multiset(b) == multiset(rest) + multiset{last};
      assert multiset(a) == multiset(a[..|a| - 1]) + multiset{last};
      assert multiset(rest) == multiset(b) - multiset{last};
      assert multiset(a[..|a| - 1]) == multiset(a) - multiset{last};
      SalarySumPermutation(a[..|a| - 1], rest);
      SalarySumRemove(b, j);
    }
  }

  /** `avgSalarySequential`: the salaries added into an `int` left to right
      (wrapping on overflow), then divided by the count with truncation;
      an empty list throws. */
  method AvgSalarySequential(vacancies: seq<Vacancy>) returns (r: Result<int32, ArithmeticException>)
    ensures r.Failure? <==> |vacancies| == 0
    ensures r.Success? ==> r.value == Div(Wrap(SalarySum(vacancies)), |vacancies|)
    ensures r.Success? && InRange(SalarySum(vacancies)) ==> r.value == Div(SalarySum(vacancies), |vacancies|)
  {
    var sumSalaries: int32 := 0;
    var i := 0;
    while i < |vacancies|
      invariant 0 <= i <= |vacancies|
      invariant sumSalaries == Wrap(SalarySum(vacancies[..i]))
    {
      assert vacancies[..i + 1][..i] == vacancies[..i];
      WrapAdd(SalarySum(vacancies[..i]), vacancies[i].salary);
      sumSalaries := Wrap(sumSalaries + vacancies[i].salary);
      i := i + 1;
    }
    assert vacancies[..i] == vacancies;
    if |vacancies| == 0 {
      r := Failure(DivideByZero);
    } else {
      r := Success(Div(sumSalaries, |vacancies|));
    }
  }

  /** The state `avgSalaryConcurrent` reads after joining all threads: each
      thread has done its one `getAndAdd` into the shared `int`, and those
      additions took effect in the order `arrivals`, any rearrangement of
      the list. The quotient is the sequential one, whatever the order. */
  method AvgSalaryConcurrent(vacancies: seq<Vacancy>, arrivals: seq<Vacancy>) returns (r: Result<int32, ArithmeticException>)
    requires multiset(arrivals) == multiset(vacancies)
    ensures r.Failure? <==> |vacancies| == 0
    ensures r.Success? ==> r.value == Div(Wrap(SalarySum(vacancies)), |vacancies|)
    ensures r.Success? && InRange(SalarySum(vacancies)) ==> r.value == Div(SalarySum(vacancies), |vacancies|)
  {
    var sumSalaries: int32 := 0;
    var i := 0;
    while i < |arrivals|
      invariant 0 <= i <= |arrivals|
      invariant sumSalaries == Wrap(SalarySum(arrivals[..i]))
    {
      assert arrivals[..i + 1][..i] == arrivals[..i];
      WrapAdd(SalarySum(arrivals[..i]), arrivals[i].salary);
      sumSalaries := Wrap(sumSalaries + arrivals[i].salary);
      i := i + 1;
    }
    assert arrivals[..i] == arrivals;
    SalarySumPermutation(arrivals, vacancies);
    assert |arrivals| == |multiset(arrivals)| == |multiset(vacancies)| == |vacancies|;
    if |vacancies| == 0 {
      r := Failure(DivideByZero);
    } else {
      r := Success(Div(sumSalaries, |vacancies|));
    }
  }

  /** The concurrent and sequential averages agree on every list and every
      order in which the threads' additions take effect. */
  method ConcurrentMatchesSequential(vacancies: seq<Vacancy>, arrivals: seq<Vacancy>) returns (concurrent: Result<int32, ArithmeticException>, sequential: Result<int32, ArithmeticException>)
    requires multiset(arrivals) == multiset(vacancies)
    ensures concurrent == sequential
    ensures concurrent.Failure? <==> |vacancies| == 0
  {
    concurrent := AvgSalaryConcurrent(vacancies, arrivals);
    sequential := AvgSalarySequential(vacancies);
    if concurrent.Failure? {
      assert concurrent.error == sequential.error == DivideByZero;
    }
  }

  /** The synthetic generator draws every salary from [0, 10000). */
  predicate GeneratedSalaries(vs: seq<Vacancy>) {
    forall i :: 0 <= i < |vs| ==> 0 <= vs[i].salary < 10000
  }

  /** Salaries from the generator cannot overflow the `int` sum unless the list
      has more than 214748 of them; the average is then plain division. */
  lemma {:induction false} GeneratedSumFits(vs: seq<Vacancy>)
    requires GeneratedSalaries(vs)
    ensures 0 <= SalarySum(vs) <= 9999 * |vs|
    ensures |vs| <= 214748 ==> InRange(SalarySum(vs))
    ensures 0 < |vs| <= 214748 ==> Div(SalarySum(vs), |vs|) == SalarySum(vs) / |vs|
  {
    if |vs| > 0 {
      GeneratedSumFits(vs[..|vs| - 1]);
    }
  }

  /** A running maximum seeded at 0: 0 for an empty list. */
  function MaxSalary(vs: seq<Vacancy>): (m: int)
    ensures m >= 0
    ensures forall i :: 0 <= i < |vs| ==> vs[i].salary <= m
    ensures m == 0 || exists i :: 0 <= i < |vs| && vs[i].salary == m
  {
    if |vs| == 0 then 0
    else
      var m := MaxSalary(vs[..|vs| - 1]);
      var last := vs[|vs| - 1].salary;
      assert forall i :: 0 <= i < |vs| - 1 ==> vs[..|vs| - 1][i] == vs[i];
      if last > m then last else m
  }

  /** `maxSalarySequential`: the largest salary, or 0 when the list is empty
      or every salary is negative (the accumulator starts at 0). */
  method MaxSalarySequential(vacancies: seq<Vacancy>) returns (maxSalary: int32)
    ensures maxSalary >= 0
    ensures forall i :: 0 <= i < |vacancies| ==> vacancies[i].salary <= maxSalary
    ensures maxSalary == 0 || exists i :: 0 <= i < |vacancies| && vacancies[i].salary == maxSalary
    ensures maxSalary == MaxSalary(vacancies)
  {
    maxSalary := 0;
    var i := 0;
    while i < |vacancies|
      invariant 0 <= i <= |vacancies|
      invariant maxSalary == MaxSalary(vacancies[..i])
    {
      assert vacancies[..i + 1][..i] == vacancies[..i];
      if vacancies[i].salary > maxSalary {
        maxSalary := vacancies[i].salary;
      }
      i := i + 1;
    }
    assert vacancies[..i] == vacancies;
  }

  /** Seeding at 0 is only right for non-negative salaries: then a non-empty
      list's maximum is one of its salaries; with all salaries negative it is
      none of them. */
  lemma MaxSalarySeed(vs: seq<Vacancy>)
    requires |vs| > 0
    ensures (forall i :: 0 <= i < |vs| ==> vs[i].salary >= 0) ==> exists i :: 0 <= i < |vs| && vs[i].salary == MaxSalary(vs)
    ensures (forall i :: 0 <= i < |vs| ==> vs[i].salary < 0) ==> MaxSalary(vs) == 0 && forall i :: 0 <= i < |vs| ==> vs[i].salary != MaxSalary(vs)
  {
    if forall i :: 0 <= i < |vs| ==> vs[i].salary >= 0 {
      if MaxSalary(vs) == 0 {
        assert vs[0].salary <= 0;
      }
    }
  }
}
