/** The resigned-employee record shared by the analysis page, its charts, its table and
    the statistics route, with the JavaScript truthiness rules the code applies to it. */
module Employees {
  import opened Common

  /** One row of the resigned-employee query.  Numeric fields hold the number a field
      denotes (a number, or a string that `Number` reads as a number); None stands for
      null, undefined or a value that is not numeric.  Text fields are None when null. */
  datatype Employee = Employee(
    employeeId: Option<string>,
    employeeName: Option<string>,
    departmentType: Option<string>,
    departmentName: Option<string>,
    departmentNameWithoutStation: Option<string>,
    dateStart: Option<string>,
    startYear: Option<int>,
    dateResign: Option<string>,
    resignYear: Option<int>,
    resignMonth: Option<int>,
    jobName: Option<string>,
    gradeName: Option<string>,
    gradeId: Option<int>,
    tenureYears: Option<real>,
    yearsInOffice: Option<real>,
    seniority: Option<real>)

  /** A numeric value is truthy when it is present and not zero. */
  predicate TruthyNum(v: Option<real>) {
    v.Some? && v.value != 0.0
  }

  predicate TruthyInt(v: Option<int>) {
    v.Some? && v.value != 0
  }

  /** A string is truthy when it is present and not empty. */
  predicate TruthyText(v: Option<string>) {
    v.Some? && v.value != ""
  }

  /** `TENURE_YEARS || YEARS_IN_OFFICE || EMPLOYEE_SENIORITY`: the first truthy field,
      and the last field as it is when none of them is truthy. */
  function TenureOr(e: Employee): (r: Option<real>)
    ensures r == e.tenureYears || r == e.yearsInOffice || r == e.seniority
    ensures TruthyNum(r) <==> TruthyNum(e.tenureYears) || TruthyNum(e.yearsInOffice) || TruthyNum(e.seniority)
    ensures TruthyNum(r) && r != e.tenureYears ==> !TruthyNum(e.tenureYears)
    ensures TruthyNum(r) && r != e.tenureYears && r != e.yearsInOffice ==> !TruthyNum(e.yearsInOffice)
    ensures TruthyNum(e.tenureYears) ==> r == e.tenureYears
  {
    if TruthyNum(e.tenureYears) then e.tenureYears
    else if TruthyNum(e.yearsInOffice) then e.yearsInOffice
    else e.seniority
  }

  /** `TENURE_YEARS || YEARS_IN_OFFICE || EMPLOYEE_SENIORITY || 0`. */
  function TenureOrZero(e: Employee): (t: real)
    ensures t != 0.0 <==> TruthyNum(TenureOr(e))
    ensures t != 0.0 ==> Some(t) == TenureOr(e)
  {
    match TenureOr(e)
    case Some(v) => v
    case None => 0.0
  }

  /** The heatmap's tenure: the value of the first of the three fields that is numeric
      at all (so a numeric 0 stops the search), else 0. */
  function NumericTenure(e: Employee): real {
    if e.tenureYears.Some? then e.tenureYears.value
    else if e.yearsInOffice.Some? then e.yearsInOffice.value
    else e.seniority.GetOr(0.0)
  }

  /** A zero TENURE_YEARS falls through to YEARS_IN_OFFICE under `||`, but is taken
      as the tenure by the heatmap's numeric test. */
  lemma ZeroTenureFallsThrough(e: Employee)
    requires e.tenureYears == Some(0.0) && TruthyNum(e.yearsInOffice)
    ensures TenureOrZero(e) == e.yearsInOffice.value != 0.0
    ensures NumericTenure(e) == 0.0
  {
  }

  /** `DATE_RESIGN_YEAR` used as a truthy Map key: a year that is present and not 0. */
  function TruthyYear(e: Employee): (y: Option<int>)
    ensures y.Some? <==> TruthyInt(e.resignYear)
    ensures y.Some? ==> y == e.resignYear
  {
    if TruthyInt(e.resignYear) then e.resignYear else None
  }
}
