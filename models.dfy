/**
 * The `Employee` document (employees/models.py): its fields and their declared bounds,
 * the salary validator, the fail-fast `clean` rules, the checks a save runs, and `to_json`.
 */
module Models {
  import opened Options
  import opened Calendar

  const MaxEmployeeIdLength: nat := 20
  const MaxNameLength: nat := 100
  const MaxDepartmentLength: nat := 100
  const MaxSkillLength: nat := 50

  /** One employee document. `salary` is a float in the source; here it is exact. */
  datatype Employee = Employee(
    employeeId: string,
    name: string,
    department: string,
    salary: real,
    joiningDate: Date,
    skills: seq<string>)

  // ----- field-level validation -----

  /** Errors a save of the document can report. */
  datatype DocumentError =
    | CleanFailed(rule: CleanError)   // raised by `clean`, reported as a non-field error
    | EmployeeIdTooLong
    | NameTooLong
    | DepartmentTooLong
    | SalaryCannotBeNegative          // raised by `validate_salary` on the salary field
    | SkillTooLong(index: nat)

  /** `validate_salary`: raises exactly for a negative salary, so zero passes. */
  function ValidateSalary(value: real): (r: Option<DocumentError>)
    ensures r.None? <==> value >= 0.0
    ensures r.Some? ==> r.value == SalaryCannotBeNegative
  {
    if value < 0.0 then Some(SalaryCannotBeNegative) else None
  }

  /** The `max_length` bounds declared on the string fields and on each skill. */
  predicate WithinDeclaredBounds(e: Employee) {
    && |e.employeeId| <= MaxEmployeeIdLength
    && |e.name| <= MaxNameLength
    && |e.department| <= MaxDepartmentLength
    && forall i :: 0 <= i < |e.skills| ==> |e.skills[i]| <= MaxSkillLength
  }

  /** The indices of the skills longer than the declared bound, in increasing order. */
  function LongSkills(skills: seq<string>): (r: seq<nat>)
    ensures forall i :: i in r <==> 0 <= i < |skills| && |skills[i]| > MaxSkillLength
    ensures forall k, l :: 0 <= k < l < |r| ==> r[k] < r[l]
  {
    if skills == [] then []
    else
      var n := |skills| - 1;
      var prefix := LongSkills(skills[..n]);
      assert forall k :: 0 <= k < |prefix| ==> prefix[k] in prefix && prefix[k] < n;
      prefix + (if |skills[n]| > MaxSkillLength then [n] else [])
  }

  // ----- clean -----

  /** The four rules of `clean`, one constructor each. */
  datatype CleanError =
    | SalaryMustBePositive
    | JoiningDateInFuture
    | EmployeeIdRequired
    | NameRequired

  /** The order in which `clean` tests its rules. */
  const CleanOrder: seq<CleanError> :=
    [SalaryMustBePositive, JoiningDateInFuture, EmployeeIdRequired, NameRequired]

  /** Whether `e` breaks the rule `rule`, on the day `today`. */
  predicate Violates(e: Employee, today: Date, rule: CleanError) {
    match rule
    case SalaryMustBePositive => e.salary < 0.0
    case JoiningDateInFuture => After(e.joiningDate, today)
    case EmployeeIdRequired => e.employeeId == ""
    case NameRequired => e.name == ""
  }

  /**
   * `Employee.clean`: fail-fast. The error reported is the first rule in `CleanOrder`
   * that `e` breaks; a record breaking none passes.
   */
  function Clean(e: Employee, today: Date): (r: Option<CleanError>)
    ensures r.None? <==> forall k :: 0 <= k < |CleanOrder| ==> !Violates(e, today, CleanOrder[k])
    ensures r.Some? ==>
      exists k :: 0 <= k < |CleanOrder| && CleanOrder[k] == r.value && Violates(e, today, r.value)
        && forall j :: 0 <= j < k ==> !Violates(e, today, CleanOrder[j])
  {
    if e.salary < 0.0 then
      assert CleanOrder[0] == SalaryMustBePositive;
      Some(SalaryMustBePositive)
    else if After(e.joiningDate, today) then
      assert CleanOrder[1] == JoiningDateInFuture;
      Some(JoiningDateInFuture)
    else if e.employeeId == "" then
      assert CleanOrder[2] == EmployeeIdRequired;
      Some(EmployeeIdRequired)
    else if e.name == "" then
      assert CleanOrder[3] == NameRequired;
      Some(NameRequired)
    else
      None
  }

  /** A salary of zero and a joining date equal to today both pass `clean`. */
  lemma CleanBoundaries(e: Employee, today: Date)
    requires e.salary == 0.0 && e.joiningDate == today && e.employeeId != "" && e.name != ""
    ensures Clean(e, today) == None
  {
    assert !After(today, today);
  }

  // ----- save -----

  /** What every stored document satisfies, whatever the day it was saved. */
  predicate Storable(e: Employee) {
    WithinDeclaredBounds(e) && e.salary >= 0.0 && e.employeeId != "" && e.name != ""
  }

  /** `clean` passes exactly when all four of its rules hold. */
  lemma CleanPasses(e: Employee, today: Date)
    ensures Clean(e, today).None? <==>
      e.salary >= 0.0 && !After(e.joiningDate, today) && e.employeeId != "" && e.name != ""
  {
  }

  /** The `max_length` errors of the three string fields, in declaration order. */
  function LengthErrors(e: Employee): (errs: seq<DocumentError>)
    ensures errs == [] <==>
      |e.employeeId| <= MaxEmployeeIdLength && |e.name| <= MaxNameLength
      && |e.department| <= MaxDepartmentLength
  {
    (if |e.employeeId| > MaxEmployeeIdLength then [EmployeeIdTooLong] else [])
    + (if |e.name| > MaxNameLength then [NameTooLong] else [])
    + (if |e.department| > MaxDepartmentLength then [DepartmentTooLong] else [])
  }

  /** The errors of the `skills` list field: one per skill over its bound. */
  function SkillErrors(skills: seq<string>): (errs: seq<DocumentError>)
    ensures errs == [] <==> forall i :: 0 <= i < |skills| ==> |skills[i]| <= MaxSkillLength
    ensures forall k :: 0 <= k < |errs| ==>
      errs[k].SkillTooLong? && errs[k].index < |skills| && |skills[errs[k].index]| > MaxSkillLength
  {
    var long := LongSkills(skills);
    assert long != [] ==> long[0] in long;
    assert forall k :: 0 <= k < |long| ==> long[k] in long;
    seq(|long|, k requires 0 <= k < |long| => SkillTooLong(long[k]))
  }

  /**
   * The checks `save()` runs before writing: the result of `clean`, then each field's own
   * validation (declared bounds, `validate_salary`, each skill's bound). Empty when the
   * document may be written.
   */
  function DocumentErrors(e: Employee, today: Date): (errs: seq<DocumentError>)
    ensures errs == [] <==> Storable(e) && !After(e.joiningDate, today)
    ensures Clean(e, today).Some? ==> errs[0] == CleanFailed(Clean(e, today).value)
  {
    CleanPasses(e, today);
    var cleanErrors := match Clean(e, today) case Some(rule) => [CleanFailed(rule)] case None => [];
    var salaryErrors := match ValidateSalary(e.salary) case Some(err) => [err] case None => [];
    cleanErrors + LengthErrors(e) + salaryErrors + SkillErrors(e.skills)
  }

  // ----- to_json -----

  /** The dictionary `to_json` returns. */
  datatype EmployeeJson = EmployeeJson(
    employeeId: string,
    name: string,
    department: string,
    salary: real,
    joiningDate: string,
    skills: seq<string>)

  /** `Employee.to_json`: every field copied, the date rendered as `YYYY-MM-DD`. */
  function ToJson(e: Employee): (j: EmployeeJson)
    ensures j.employeeId == e.employeeId && j.name == e.name && j.department == e.department
    ensures j.salary == e.salary && j.skills == e.skills
    ensures ParseIsoDate(j.joiningDate) == Some(e.joiningDate)
  {
    ParseFormatIsoDate(e.joiningDate);
    EmployeeJson(e.employeeId, e.name, e.department, e.salary, FormatIsoDate(e.joiningDate), e.skills)
  }

  /** Reads a `to_json` dictionary back into a document. */
  function FromJson(j: EmployeeJson): (r: Option<Employee>)
  {
    match ParseIsoDate(j.joiningDate)
    case None => None
    case Some(d) => Some(Employee(j.employeeId, j.name, j.department, j.salary, d, j.skills))
  }

  /** `to_json` loses nothing: reading its output back gives the same document. */
  lemma ToJsonRoundTrip(e: Employee)
    ensures FromJson(ToJson(e)) == Some(e)
  {
  }

  /** Two documents with the same `to_json` output are the same document. */
  lemma ToJsonInjective(a: Employee, b: Employee)
    requires ToJson(a) == ToJson(b)
    ensures a == b
  {
    ToJsonRoundTrip(a);
    ToJsonRoundTrip(b);
  }
}
