/** The rows of the resigned-employee grid: one record per employee, in order, with a
    row number, a row id and text fields defaulted for display. */
module ResignedEmployeeTable {
  import opened Common
  import opened Numeric
  import opened Employees

  /** The grid's row id: the employee's EMPLOYEE_ID, or the position when that is falsy. */
  datatype RowId = EmployeeKey(key: string) | IndexKey(index: nat)

  datatype TableRow = TableRow(
    id: RowId,
    rowNumber: nat,
    employeeId: Option<string>,
    employeeName: string,
    departmentName: string,
    dateStart: string,
    dateResign: string,
    tenureYears: real,
    jobName: string,
    gradeName: string,
    dateResignYear: Option<int>,
    dateResignMonth: Option<int>)

  /** `v || ''`. */
  function TextOr(v: Option<string>): (s: string)
    ensures TruthyText(v) ==> s == v.value
    ensures !TruthyText(v) ==> s == ""
  {
    if TruthyText(v) then v.value else ""
  }

  /** `v || null` on a numeric field. */
  function IntOrNull(v: Option<int>): (r: Option<int>)
    ensures r.Some? <==> TruthyInt(v)
    ensures r.Some? ==> r == v
  {
    if TruthyInt(v) then v else None
  }

  /** `DEPARTMENT_NAME || DEPARTMENT_NAME_WITHOUT_STATION || ''`. */
  function DepartmentOf(e: Employee): (s: string)
    ensures TruthyText(e.departmentName) ==> s == e.departmentName.value
    ensures !TruthyText(e.departmentName) && TruthyText(e.departmentNameWithoutStation) ==> s == e.departmentNameWithoutStation.value
    ensures !TruthyText(e.departmentName) && !TruthyText(e.departmentNameWithoutStation) ==> s == ""
  {
    if TruthyText(e.departmentName) then e.departmentName.value else TextOr(e.departmentNameWithoutStation)
  }

  function RowIdOf(e: Employee, index: nat): RowId {
    if TruthyText(e.employeeId) then EmployeeKey(e.employeeId.value) else IndexKey(index)
  }

  /** The record of the employee at position `index`. */
  function RowOf(e: Employee, index: nat): TableRow {
    TableRow(
      RowIdOf(e, index),
      index + 1,
      e.employeeId,
      TextOr(e.employeeName),
      DepartmentOf(e),
      TextOr(e.dateStart),
      TextOr(e.dateResign),
      Round2(TenureOrZero(e)),
      TextOr(e.jobName),
      TextOr(e.gradeName),
      IntOrNull(e.resignYear),
      IntOrNull(e.resignMonth))
  }

  /** The `rows` memo: one row per employee, same order, numbered from 1, with the
      EMPLOYEE_ID as id when it is truthy and the position otherwise. */
  function Rows(emps: seq<Employee>): (r: seq<TableRow>)
    ensures |r| == |emps|
    ensures forall i :: 0 <= i < |r| ==> r[i].rowNumber == i + 1 && r[i].employeeId == emps[i].employeeId
    ensures forall i :: 0 <= i < |r| ==> (r[i].id == IndexKey(i) <==> !TruthyText(emps[i].employeeId))
    ensures forall i :: 0 <= i < |r| && TruthyText(emps[i].employeeId) ==> r[i].id == EmployeeKey(emps[i].employeeId.value)
  {
    seq(|emps|, i requires 0 <= i < |emps| => RowOf(emps[i], i))
  }

  /** The truthy EMPLOYEE_IDs are pairwise distinct. */
  predicate DistinctEmployeeIds(emps: seq<Employee>) {
    forall i, j :: 0 <= i < j < |emps| && TruthyText(emps[i].employeeId) && TruthyText(emps[j].employeeId) ==>
      emps[i].employeeId != emps[j].employeeId
  }

  /** The grid needs distinct row ids: they are distinct exactly when the truthy
      EMPLOYEE_IDs are. */
  lemma RowIdsDistinct(emps: seq<Employee>)
    ensures (forall i, j :: 0 <= i < j < |Rows(emps)| ==> Rows(emps)[i].id != Rows(emps)[j].id) <==> DistinctEmployeeIds(emps)
  {
    var r := Rows(emps);
    if DistinctEmployeeIds(emps) {
      forall i, j | 0 <= i < j < |r| ensures r[i].id != r[j].id {
        if TruthyText(emps[i].employeeId) && TruthyText(emps[j].employeeId) {
          assert emps[i].employeeId != emps[j].employeeId;
        }
      }
    } else {
      var i, j :| 0 <= i < j < |emps| && TruthyText(emps[i].employeeId) && TruthyText(emps[j].employeeId) &&
        emps[i].employeeId == emps[j].employeeId;
      assert r[i].id == r[j].id;
    }
  }

  /** The tenure column is the `||` tenure (0 when there is none) rounded to two
      decimals, so within half a hundredth of it. */
  lemma TenureColumn(emps: seq<Employee>, i: nat)
    requires i < |emps|
    ensures Rows(emps)[i].tenureYears == Round2(TenureOrZero(emps[i]))
    ensures TenureOrZero(emps[i]) - 0.005 < Rows(emps)[i].tenureYears <= TenureOrZero(emps[i]) + 0.005
    ensures !TruthyNum(TenureOr(emps[i])) ==> Rows(emps)[i].tenureYears == 0.0
  {
    Round2Close(TenureOrZero(emps[i]));
    assert Round2(0.0) == 0.0;
  }

  /** A grid cell value: no value, a string, or a number. */
  datatype CellValue = NoValue | Text(text: string) | Number(number: real)

  /** The tenure column's formatter: blank (None) for a missing value or the empty string;
      otherwise the number shown with two decimals and the unit (Some of the number). */
  function FormatTenure(v: CellValue): (r: Option<real>)
    requires !(v.Text? && v.text != "")
    ensures r.None? <==> v == NoValue || v == Text("")
    ensures r.Some? ==> v == Number(r.value)
  {
    match v
    case NoValue => None
    case Text(_) => None
    case Number(x) => Some(x)
  }

  /** Every row's tenure cell is shown as a number: the mapping never yields the blank case. */
  lemma TenureCellsNeverBlank(emps: seq<Employee>)
    ensures forall i :: 0 <= i < |Rows(emps)| ==> FormatTenure(Number(Rows(emps)[i].tenureYears)).Some?
  {
  }
}
