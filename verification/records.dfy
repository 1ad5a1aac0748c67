/**
 * The employee table. A row of the raw sheet holds text (or nothing) in every
 * column but `employee_id`; after the type conversion step the salary and
 * manager columns hold numbers and the date columns hold dates, and the email
 * check adds the `email_valid` column.
 */
module Records {
  import opened Wrappers
  import opened Numeric

  /** A calendar date, as a day number: only its order matters here. */
  type Day = int

  /** The text columns of the employee sheet. */
  datatype TextCol = FirstName | LastName | Email | Gender | Department | Currency | Country | State | City

  /** The text cells of one row; `None` is a missing cell (NaN). */
  datatype Texts = Texts(
    firstName: Option<string>,
    lastName: Option<string>,
    email: Option<string>,
    gender: Option<string>,
    department: Option<string>,
    currency: Option<string>,
    country: Option<string>,
    state: Option<string>,
    city: Option<string>)

  /** `row[col]` for a text column. */
  function GetText(t: Texts, c: TextCol): Option<string> {
    match c
    case FirstName => t.firstName
    case LastName => t.lastName
    case Email => t.email
    case Gender => t.gender
    case Department => t.department
    case Currency => t.currency
    case Country => t.country
    case State => t.state
    case City => t.city
  }

  /** `row[col] = v` for a text column: that cell changes and no other. */
  function SetText(t: Texts, c: TextCol, v: Option<string>): (t': Texts)
    ensures GetText(t', c) == v
    ensures forall d :: d != c ==> GetText(t', d) == GetText(t, d)
  {
    match c
    case FirstName => t.(firstName := v)
    case LastName => t.(lastName := v)
    case Email => t.(email := v)
    case Gender => t.(gender := v)
    case Department => t.(department := v)
    case Currency => t.(currency := v)
    case Country => t.(country := v)
    case State => t.(state := v)
    case City => t.(city := v)
  }

  /** Two rows of text cells are equal when every column agrees. */
  lemma TextsEqual(t: Texts, u: Texts)
    requires forall c :: GetText(t, c) == GetText(u, c)
    ensures t == u
  {
    assert GetText(t, FirstName) == GetText(u, FirstName);
    assert GetText(t, LastName) == GetText(u, LastName);
    assert GetText(t, Email) == GetText(u, Email);
    assert GetText(t, Gender) == GetText(u, Gender);
    assert GetText(t, Department) == GetText(u, Department);
    assert GetText(t, Currency) == GetText(u, Currency);
    assert GetText(t, Country) == GetText(u, Country);
    assert GetText(t, State) == GetText(u, State);
    assert GetText(t, City) == GetText(u, City);
  }

  /** Every column of the raw sheet except `employee_id`. */
  datatype Col = Text(t: TextCol) | Salary | ManagerId | HireDate | ExitDate

  /** A row as read from the sheet: every column but the id is text or missing. */
  datatype RawRow = RawRow(
    employeeId: int,
    text: Texts,
    salary: Option<string>,
    managerId: Option<string>,
    hireDate: Option<string>,
    exitDate: Option<string>)

  function Get(r: RawRow, c: Col): Option<string> {
    match c
    case Text(t) => GetText(r.text, t)
    case Salary => r.salary
    case ManagerId => r.managerId
    case HireDate => r.hireDate
    case ExitDate => r.exitDate
  }

  function Set(r: RawRow, c: Col, v: Option<string>): (r': RawRow)
    ensures r'.employeeId == r.employeeId
    ensures Get(r', c) == v
    ensures forall d :: d != c ==> Get(r', d) == Get(r, d)
  {
    match c
    case Text(t) => r.(text := SetText(r.text, t, v))
    case Salary => r.(salary := v)
    case ManagerId => r.(managerId := v)
    case HireDate => r.(hireDate := v)
    case ExitDate => r.(exitDate := v)
  }

  /** Two raw rows are equal when the ids and every column agree. */
  lemma RawRowsEqual(r: RawRow, s: RawRow)
    requires r.employeeId == s.employeeId
    requires forall c :: Get(r, c) == Get(s, c)
    ensures r == s
  {
    forall t ensures GetText(r.text, t) == GetText(s.text, t) {
      assert Get(r, Text(t)) == Get(s, Text(t));
    }
    TextsEqual(r.text, s.text);
    assert Get(r, Salary) == Get(s, Salary);
    assert Get(r, ManagerId) == Get(s, ManagerId);
    assert Get(r, HireDate) == Get(s, HireDate);
    assert Get(r, ExitDate) == Get(s, ExitDate);
  }

  /**
   * A row once salary, manager id and dates are typed. `emailValid` is the
   * transient `email_valid` column, `None` before the email check adds it.
   */
  datatype Employee = Employee(
    employeeId: int,
    text: Texts,
    salary: Option<Decimal>,
    managerId: Option<Decimal>,
    hireDate: Option<Day>,
    exitDate: Option<Day>,
    emailValid: Option<bool>)

  /** A DataFrame that the cleaning steps update in place. */
  class Frame<Row> {
    var rows: seq<Row>

    constructor (rows: seq<Row>)
      ensures this.rows == rows
    {
      this.rows := rows;
    }
  }

  /** The same per-row rule applied to every row, as a vectorised column assignment does. */
  function MapRows<R>(rows: seq<R>, f: R -> R): (r: seq<R>)
    ensures |r| == |rows|
    ensures forall i :: 0 <= i < |rows| ==> r[i] == f(rows[i])
  {
    seq(|rows|, i requires 0 <= i < |rows| => f(rows[i]))
  }

  /** How many rows satisfy `p`, as `df[mask].shape[0]` or `mask.sum()` count them. */
  function CountWhere<R>(rows: seq<R>, p: R -> bool): (n: nat)
    ensures n <= |rows|
    ensures n == 0 <==> forall i :: 0 <= i < |rows| ==> !p(rows[i])
    decreases |rows|
  {
    if rows == [] then 0
    else
      var init := rows[..|rows| - 1];
      assert forall i :: 0 <= i < |init| ==> init[i] == rows[i];
      CountWhere(init, p) + (if p(rows[|rows| - 1]) then 1 else 0)
  }

  /**
   * Counting `p` after a per-row rule `f` is counting `q` before it, when `q`
   * says in advance what `p` will say of the rewritten row.
   */
  lemma {:induction false} CountWhereMap<R>(rows: seq<R>, f: R -> R, p: R -> bool, q: R -> bool)
    requires forall x :: p(f(x)) == q(x)
    ensures CountWhere(MapRows(rows, f), p) == CountWhere(rows, q)
    decreases |rows|
  {
    if rows != [] {
      var init := rows[..|rows| - 1];
      CountWhereMap(init, f, p, q);
      assert MapRows(rows, f)[..|rows| - 1] == MapRows(init, f);
    }
  }
}
