/** The vacancy record of class `Agency`: its value types, the parsing its
    constructor does, its ordering and the `equals` relations. A Java `null`
    reference is `None`. */
module Agency {
  import opened Wrappers
  import opened JavaInt
  import opened JavaString

  datatype Education = NONE | SCHOOL | UNIVERSITY

  datatype WorkerSpecialization = WorkerSpecialization(specializationName: string, workExpYears: int32)

  datatype WorkerRequirements = WorkerRequirements(
    specialization: Option<WorkerSpecialization>,
    education: Option<Education>,
    car: bool)

  datatype Vacancy = Vacancy(
    companyName: string,
    specialization: string,
    conditions: string,
    salary: int32,
    workerRequirements: WorkerRequirements)

  /* ---------------- field parsing ---------------- */

  /** `parseSalary`: the trimmed string's `int` value, or 0 when
      `Integer.parseInt` rejects it. */
  function ParseSalary(salaryString: string): (salary: int32)
    ensures IsIntString(Trim(salaryString)) ==> salary == LiteralValue(Trim(salaryString))
    ensures !IsIntString(Trim(salaryString)) ==> salary == 0
  {
    match ParseInt(Trim(salaryString))
    case Some(v) => v
    case None => 0
  }

  /** The numeral of any `int`, with blanks on either side, parses back to it. */
  lemma ParseSalaryFormat(n: int32, before: string, after: string)
    requires AllBlank(before) && AllBlank(after)
    ensures ParseSalary(before + FormatInt(n) + after) == n
  {
    TrimPadded(before, FormatInt(n), after);
    ParseFormat(n);
  }

  /** `parseWorkerSpecialization`: absent for a null or empty name or for a
      years string `Integer.parseInt` rejects after trimming; otherwise the
      trimmed name with the parsed years. */
  function ParseWorkerSpecialization(name: Option<string>, workExpYearsString: string): (r: Option<WorkerSpecialization>)
    ensures r.Some? <==> name.Some? && name.value != "" && IsIntString(Trim(workExpYearsString))
    ensures r.Some? ==> TrimmedOf(r.value.specializationName, name.value)
    ensures r.Some? ==> r.value.workExpYears == LiteralValue(Trim(workExpYearsString))
  {
    if name.None? || name.value == "" then None
    else
      match ParseInt(Trim(workExpYearsString))
      case None => None
      case Some(years) => Some(WorkerSpecialization(Trim(name.value), years))
  }

  /** The emptiness test comes before trimming: a name of blanks alone is kept,
      as the empty name. */
  lemma BlankSpecializationNameKept(name: string, workExpYearsString: string)
    requires name != "" && AllBlank(name)
    requires IsIntString(Trim(workExpYearsString))
    ensures ParseWorkerSpecialization(Some(name), workExpYearsString).Some?
    ensures ParseWorkerSpecialization(Some(name), workExpYearsString).value.specializationName == ""
  {
    var r := ParseWorkerSpecialization(Some(name), workExpYearsString);
    TrimmedOfIsTrim(r.value.specializationName, name);
    TrimPadded(name, "", "");
    assert name + "" + "" == name;
  }

  /** The lower-case keyword `parseEducation` maps to each level. */
  function Keyword(e: Education): string {
    match e
    case NONE => ""
    case SCHOOL => "school"
    case UNIVERSITY => "university"
  }

  /** `parseEducation`: the keyword matched without regard to case (but
      without trimming), or `None` (Java's `null`) for any other string. */
  function ParseEducation(educationString: string): (r: Option<Education>)
    ensures r == Some(NONE) <==> educationString == ""
    ensures r == Some(SCHOOL) <==> EqualsIgnoreCase(educationString, "school")
    ensures r == Some(UNIVERSITY) <==> EqualsIgnoreCase(educationString, "university")
  {
    var lower := ToLower(educationString);
    LowerMatchesKeyword(educationString, "school");
    LowerMatchesKeyword(educationString, "university");
    if lower == "" then Some(NONE)
    else if lower == "school" then Some(SCHOOL)
    else if lower == "university" then Some(UNIVERSITY)
    else None
  }

  /** Lower-casing a string gives a lower-case keyword exactly when the two
      are equal ignoring case. */
  lemma LowerMatchesKeyword(s: string, keyword: string)
    requires forall i :: 0 <= i < |keyword| ==> LowerChar(keyword[i]) == keyword[i]
    ensures ToLower(s) == keyword <==> EqualsIgnoreCase(s, keyword)
  {
    if EqualsIgnoreCase(s, keyword) {
      assert forall i :: 0 <= i < |s| ==> ToLower(s)[i] == keyword[i];
    }
  }

  /** Every level's keyword parses back to that level, whatever its case. */
  lemma ParseEducationKeyword(e: Education)
    ensures ParseEducation(Keyword(e)) == Some(e)
    ensures ParseEducation(ToUpper(Keyword(e))) == Some(e)
  {
    ParseEducationCaseInsensitive(Keyword(e));
  }

  /** ASCII upper- or lower-casing of the argument never changes the result. */
  lemma ParseEducationCaseInsensitive(s: string)
    ensures ParseEducation(ToUpper(s)) == ParseEducation(s)
    ensures ParseEducation(ToLower(s)) == ParseEducation(s)
  {
    forall k | EqualsIgnoreCase(s, k) || EqualsIgnoreCase(ToUpper(s), k) || EqualsIgnoreCase(ToLower(s), k)
      ensures EqualsIgnoreCase(s, k) && EqualsIgnoreCase(ToUpper(s), k) && EqualsIgnoreCase(ToLower(s), k)
    {
      forall i | 0 <= i < |s|
        ensures LowerChar(UpperChar(s[i])) == LowerChar(s[i]) == LowerChar(LowerChar(s[i]))
      {
      }
    }
  }

  /** Surrounding blanks are not stripped: a keyword with any blank before or
      after it is rejected. */
  lemma ParseEducationDoesNotTrim(e: Education, before: string, after: string)
    requires AllBlank(before) && AllBlank(after) && |before| + |after| > 0
    ensures ParseEducation(before + Keyword(e) + after) == None
  {
    var s := before + Keyword(e) + after;
    if |before| > 0 {
      assert s[0] == before[0];
    } else {
      assert s[|s| - 1] == after[|after| - 1];
    }
  }

  /** The `Vacancy` constructor: the three text fields trimmed, the salary,
      worker specialization and education parsed, and `car` kept. */
  function NewVacancy(
    companyName: string, specialization: string, conditions: string,
    salaryString: string, workerSpecializationName: Option<string>,
    workExpYearsString: string, educationString: string, car: bool): (v: Vacancy)
    ensures TrimmedOf(v.companyName, companyName)
    ensures TrimmedOf(v.specialization, specialization)
    ensures TrimmedOf(v.conditions, conditions)
    ensures IsIntString(Trim(salaryString)) ==> v.salary == LiteralValue(Trim(salaryString))
    ensures !IsIntString(Trim(salaryString)) ==> v.salary == 0
    ensures v.workerRequirements.specialization == ParseWorkerSpecialization(workerSpecializationName, workExpYearsString)
    ensures v.workerRequirements.education == ParseEducation(educationString)
    ensures v.workerRequirements.car == car
  {
    Vacancy(
      Trim(companyName), Trim(specialization), Trim(conditions),
      ParseSalary(salaryString),
      WorkerRequirements(
        ParseWorkerSpecialization(workerSpecializationName, workExpYearsString),
        ParseEducation(educationString),
        car))
  }

  /** The record built from the synthetic generator's arguments, for any
      salary and years value it draws. */
  lemma GeneratedVacancy(salary: int32, years: int32)
    ensures NewVacancy("Company", "Specialization", "Conditions", FormatInt(salary),
                       Some("IT"), FormatInt(years), "", false)
         == Vacancy("Company", "Specialization", "Conditions", salary,
                    WorkerRequirements(Some(WorkerSpecialization("IT", years)), Some(NONE), false))
  {
    TrimNoEdgeBlank("Company");
    TrimNoEdgeBlank("Specialization");
    TrimNoEdgeBlank("Conditions");
    TrimNoEdgeBlank("IT");
    assert ParseSalary(FormatInt(salary)) == salary by {
      ParseSalaryFormat(salary, "", "");
      assert "" + FormatInt(salary) + "" == FormatInt(salary);
    }
    assert ParseWorkerSpecialization(Some("IT"), FormatInt(years)) == Some(WorkerSpecialization("IT", years)) by {
      TrimNoEdgeBlank(FormatInt(years));
      ParseFormat(years);
    }
    assert ParseEducation("") == Some(NONE);
  }

  /* ---------------- ordering ---------------- */

  /** `Vacancy.compareTo`: company names compared as strings. */
  function CompareTo(a: Vacancy, b: Vacancy): (r: int)
    ensures r == 0 <==> a.companyName == b.companyName
  {
    CompareStrings(a.companyName, b.companyName)
  }

  /** `compareTo` is a total order on company names: antisymmetric and
      transitive, and blind to every other field. */
  lemma CompareToOrder(a: Vacancy, b: Vacancy, c: Vacancy)
    ensures CompareTo(a, b) == -CompareTo(b, a)
    ensures CompareTo(a, b) < 0 && CompareTo(b, c) < 0 ==> CompareTo(a, c) < 0
    ensures a.companyName == c.companyName ==> CompareTo(a, b) == CompareTo(c, b)
  {
    CompareStringsAntisymmetric(a.companyName, b.companyName);
    if CompareTo(a, b) < 0 && CompareTo(b, c) < 0 {
      CompareStringsTransitive(a.companyName, b.companyName, c.companyName);
    }
  }

  /* ---------------- equality ---------------- */

  /** `WorkerSpecialization.equals`: same years and same name. */
  function SpecializationEquals(a: WorkerSpecialization, b: WorkerSpecialization): (r: bool)
    ensures r <==> a == b
  {
    a.workExpYears == b.workExpYears && a.specializationName == b.specializationName
  }

  /** `Objects.equals` on two possibly-null specializations. */
  function SpecializationObjectsEquals(a: Option<WorkerSpecialization>, b: Option<WorkerSpecialization>): (r: bool)
    ensures r <==> a == b
  {
    if a.None? || b.None? then a.None? && b.None?
    else SpecializationEquals(a.value, b.value)
  }

  /** `WorkerRequirements.equals`: specialization and education alone; `car`
      takes no part. */
  function RequirementsEquals(a: WorkerRequirements, b: WorkerRequirements): (r: bool)
    ensures r <==> a.(car := false) == b.(car := false)
  {
    SpecializationObjectsEquals(a.specialization, b.specialization) && a.education == b.education
  }

  /** `RequirementsEquals` is an equivalence under which `car` is invisible. */
  lemma RequirementsEqualsEquivalence(a: WorkerRequirements, b: WorkerRequirements, c: WorkerRequirements, car: bool)
    ensures RequirementsEquals(a, a)
    ensures RequirementsEquals(a, b) == RequirementsEquals(b, a)
    ensures RequirementsEquals(a, b) && RequirementsEquals(b, c) ==> RequirementsEquals(a, c)
    ensures RequirementsEquals(a, a.(car := car))
  {
  }

  /** A vacancy with its requirements' `car` flag cleared. */
  function WithoutCar(v: Vacancy): Vacancy {
    v.(workerRequirements := v.workerRequirements.(car := false))
  }

  /** `Vacancy.equals`: every field, with the requirements compared by
      `WorkerRequirements.equals`. */
  function VacancyEquals(a: Vacancy, b: Vacancy): (r: bool)
    ensures r <==> WithoutCar(a) == WithoutCar(b)
  {
    && a.salary == b.salary
    && a.companyName == b.companyName
    && a.specialization == b.specialization
    && a.conditions == b.conditions
    && RequirementsEquals(a.workerRequirements, b.workerRequirements)
  }

  /** Equal vacancies compare as 0, but the converse fails: `compareTo` is
      not consistent with `equals`. */
  lemma CompareToVersusEquals(a: Vacancy, b: Vacancy)
    ensures VacancyEquals(a, b) ==> CompareTo(a, b) == 0
    ensures var w := a.(salary := if a.salary == 0 then 1 else 0);
            CompareTo(a, w) == 0 && !VacancyEquals(a, w)
  {
  }
}
