# Salary reducers and the vacancy record

A Dafny model of the deterministic logic of a small Java benchmark
(`src/Main.java`) that compares sequential and thread-per-element ways of
computing the average and the maximum salary over a list of job vacancies.

The model has three parts.

- **Sequential reducers** (`SalaryStats`). `avgSalarySequential` adds the
  salaries into a Java `int` left to right and divides by the list size.
  `maxSalarySequential` keeps a running maximum that starts at 0. Both are
  methods with loop invariants, checked against the recursive
  specifications `SalarySum` and `MaxSalary`. Java's 32-bit wrap-around on
  the sum is modelled (`JavaInt.Wrap`), and so is Java's truncating division
  (`JavaInt.Div`). The `ArithmeticException` thrown for an empty list is a
  `Failure` result.
- **The concurrent average after the join** (`SalaryStats.AvgSalaryConcurrent`).
  Every thread does one `getAndAdd` into a shared `AtomicInteger`, in an order
  the scheduler picks. That state is modelled without threads: the method
  takes the order in which the `getAndAdd` calls took effect (`arrivals`),
  which can be any rearrangement of the list. `SalarySumPermutation` shows the total does
  not depend on that order, so the concurrent average equals the sequential
  one (`ConcurrentMatchesSequential`).
- **The vacancy record** (`Agency`). This covers the constructor's trimming
  and parsing (`parseSalary`, `parseWorkerSpecialization`, `parseEducation`),
  `compareTo`, and the `equals` methods of `Vacancy`, `WorkerRequirements`
  and `WorkerSpecialization`. The library behaviour these depend on is
  modelled from its documented definition:
  - `Integer.parseInt` and `Integer.toString` in `JavaInt`;
  - `String.trim`, `toLowerCase` and `compareTo` in `JavaString`.

A Java `null` is `Wrappers.Option.None`. The only nullable input the model
accepts is the worker-specialization name, because that is the only null
the source tests for.

Two behaviours of the code are worth stating, because a reader might expect
otherwise:

- For an empty list the average fails with Java's own `ArithmeticException`
  from `/ 0`. There is no separate "empty input" error.
- `generateVacancy` falls back to `null` if the constructor throws. Read
  from the source, that fallback is never taken: the generator's arguments
  are non-null literals, and the only other exception the constructor can
  meet, `NumberFormatException`, is caught inside `parseSalary` and
  `parseWorkerSpecialization`. The model has no exceptions, so it cannot
  show this. `Agency.GeneratedVacancy` only pins down the record the
  generator builds, for every salary and years value it can draw.

## Model

| member | source | states |
|---|---|---|
| JavaInt.Wrap | src/Main.java:111 | the `int` accumulator holds the one value in `int` range congruent to the exact sum modulo 2^32, and that is the exact value when no overflow happens |
| JavaInt.WrapAdd | src/Main.java:109-112 | wrapping after every `+=` gives the same `int` as wrapping the exact sum once |
| JavaInt.Div | src/Main.java:114 | `int` division by a positive size truncates toward zero: the remainder is in [0, b) for a non-negative sum and in (-b, 0] for a negative one |
| JavaInt.AccumulateValue | src/Main.java:157 | the digit loop that gives up once the magnitude passes the limit returns the numeral's value exactly when the value is within the limit |
| JavaInt.ParseInt | src/Main.java:157 | `Integer.parseInt` succeeds exactly on an optional sign followed by decimal digits whose value lies in `int` range, and returns that value |
| JavaInt.NatToDigits | src/Main.java:49 | the numeral `Integer.toString` writes for a natural number is a non-empty digit string with no leading zero (0 is written "0"), and its value is that number |
| JavaInt.FormatInt | src/Main.java:49-51 | `Integer.toString` and `Short.toString` write the canonical signed decimal numeral: a leading `-` exactly for a negative number, then digits with no leading zero (0 is "0"); its value is given by `JavaInt.ParseFormat` |
| JavaInt.ParseFormat | src/Main.java:49 | every `int` written by `Integer.toString` is read back unchanged by `Integer.parseInt` |
| JavaString.Trim | src/Main.java:144-146 | `trim` returns the input with the blank runs at both ends removed, and its result has no blank at either end |
| JavaString.TrimmedOfIsTrim | src/Main.java:144-146 | the trimmed form is unique: any infix that has only blanks around it and no blank edge is the trim |
| JavaString.TrimPadded | src/Main.java:157 | blanks put around a string with no blank edge are exactly what `trim` removes |
| JavaString.TrimIdempotent | src/Main.java:144-146 | trimming twice is trimming once |
| JavaString.ToLower | src/Main.java:177 | `toLowerCase` keeps the length and lower-cases each character on its own (ASCII letters only) |
| JavaString.CompareStrings | src/Main.java:220 | `String.compareTo` is 0 exactly when the two strings are equal |
| JavaString.CompareStringsAntisymmetric | src/Main.java:220 | swapping the operands of `String.compareTo` negates the result |
| JavaString.CompareStringsTransitive | src/Main.java:220 | "sorts before" under `String.compareTo` is transitive |
| Agency.ParseSalary | src/Main.java:155-161 | the salary is the value of the trimmed string when that is an `int` literal in range, and 0 for every other string |
| Agency.ParseSalaryFormat | src/Main.java:155-161 | any `int` written in decimal, with blanks on either side, parses back to itself |
| Agency.ParseWorkerSpecialization | src/Main.java:163-174 | the result is absent when the name is null or empty, or when the trimmed years string is not an `int`; otherwise it holds the trimmed name and the parsed years |
| Agency.BlankSpecializationNameKept | src/Main.java:164-170 | the emptiness test runs before trimming, so a name made only of blanks gives a specialization with the empty name |
| Agency.ParseEducation | src/Main.java:176-187 | the empty string gives NONE, "school" and "university" in any case give SCHOOL and UNIVERSITY, and every other string gives null |
| Agency.ParseEducationKeyword | src/Main.java:176-187 | each education level's keyword, lower-case or upper-case, parses back to that level |
| Agency.ParseEducationCaseInsensitive | src/Main.java:177 | ASCII upper-casing or lower-casing of the argument never changes the parsed education |
| Agency.ParseEducationDoesNotTrim | src/Main.java:177 | every education keyword with one or more blanks before or after it is rejected |
| Agency.NewVacancy | src/Main.java:140-153 | the constructor stores company, specialization and conditions trimmed, the parsed salary (0 if unparsable), the parsed specialization and education, and `car` unchanged |
| Agency.GeneratedVacancy | src/Main.java:45-54 | the generator's constant arguments give a vacancy with the drawn salary, specialization "IT" with the drawn years, education NONE and no car |
| Agency.CompareTo | src/Main.java:219-221 | `compareTo` is 0 exactly when the company names are equal |
| Agency.CompareToOrder | src/Main.java:219-221 | `compareTo` is antisymmetric and transitive, and depends on the company name alone |
| Agency.SpecializationEquals | src/Main.java:304-310 | two worker specializations are equal exactly when both years and name agree |
| Agency.SpecializationObjectsEquals | src/Main.java:276 | `Objects.equals` on two possibly-null specializations holds exactly when both are null or both are equal |
| Agency.RequirementsEquals | src/Main.java:272-278 | two requirements are equal exactly when they agree once `car` is ignored |
| Agency.RequirementsEqualsEquivalence | src/Main.java:272-278 | requirements equality is reflexive, symmetric and transitive, and changing `car` never breaks it |
| Agency.VacancyEquals | src/Main.java:224-233 | two vacancies are equal exactly when every field agrees once the requirements' `car` is ignored |
| Agency.CompareToVersusEquals | src/Main.java:219-233 | equal vacancies compare as 0, but two vacancies differing only in salary compare as 0 while not being equal |
| SalaryStats.SalarySumPermutation | src/Main.java:60-79 | any reordering of the additions gives the same total |
| SalaryStats.AvgSalarySequential | src/Main.java:108-115 | an empty list throws; otherwise the result is the wrapped sum divided by the count with truncation, which is the exact sum divided by the count whenever that sum fits in an `int` |
| SalaryStats.AvgSalaryConcurrent | src/Main.java:60-79 | after the join, for every order of the `getAndAdd` calls, the result is the same truncated quotient of the sum by the count, and an empty list throws |
| SalaryStats.ConcurrentMatchesSequential | src/Main.java:60-115 | the concurrent and sequential averages are equal for every list and every order in which the threads' additions take effect |
| SalaryStats.GeneratedSumFits | src/Main.java:49 | salaries drawn from [0, 10000) sum to at most 9999 per vacancy, so up to 214748 of them never overflow, and the average is then plain division |
| SalaryStats.MaxSalary | src/Main.java:117-126 | the running maximum seeded at 0 is at least 0 and at least every salary, and it is 0 or one of the salaries |
| SalaryStats.MaxSalarySequential | src/Main.java:117-126 | the method returns a value that is at least 0, at least every salary, and either 0 or some salary, which is the running maximum |
| SalaryStats.MaxSalarySeed | src/Main.java:118 | with non-negative salaries a non-empty list's result is one of its salaries; with all salaries negative the result is 0, which is none of them |

## Left out

- `main` is left out. Its timing reads `System.nanoTime` and its report goes to the console. This is clock and I/O work with no result to state.
- Thread creation, `start`, `join` and the `InterruptedException` handler in both concurrent reducers are left out. For the average, only the state after the join is modelled, as the order in which the `getAndAdd` calls took effect.
- `maxSalaryConcurrent` is left out. Its check-then-set is not atomic and its lock is never taken. So under real parallelism an update can be lost, and no result can be promised for it.
- `generateVacancy` is left out. Its random draws use `Math.random` with floating-point scaling. `Agency.GeneratedVacancy` and `SalaryStats.GeneratedSumFits` take the drawn values as parameters instead.
- `hashCode`, `toString`, `Serializable` and the getters are left out. They are thin wrappers over library formatting and hashing, or plain field reads.
- The two-argument `WorkerRequirements` constructor is left out. It is the three-argument one with `car` false.
- `null` is modelled only for the specialization name. A null salary string, years string (with a non-empty name), education string, company, specialization or conditions makes Java throw `NullPointerException`. A null vacancy in the list makes `avgSalarySequential`, `maxSalarySequential` and `maxSalaryConcurrent` throw in the calling thread. In `avgSalaryConcurrent` the exception ends only that vacancy's thread, so the average is the other salaries' sum divided by the full size. None of this is modelled.
- The `equals` methods are modelled for a non-null argument of the same class. Java returns false for a null argument or one of another class.
- JavaInt.ParseInt accepts only ASCII digits. `Character.digit` also accepts other Unicode decimal digits.
- JavaString.ToLower folds only ASCII letters and assumes a locale other than Turkish or Azerbaijani. Outside those locales no other character lower-cases to a letter of "school" or "university" on its own, so `parseEducation` is exact.
- Agency.ParseEducationCaseInsensitive: the upper-casing it is stated for (JavaString.ToUpper) is ASCII-only. Java's `toUpperCase` maps 'ſ' to 'S' and 'ı' to 'I', so for Java the claim fails: "ſchool" gives null but its upper-case form "SCHOOL" gives SCHOOL.
- JavaString.CompareStrings compares Unicode code points. Java compares UTF-16 code units, which orders characters outside the Basic Multilingual Plane differently.
- The list size is an unbounded `nat`. A Java `List` reports at most `Integer.MAX_VALUE`.
