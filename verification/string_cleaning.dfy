/**
 * Step 3, `clean_strings`: every object (text) column is converted with
 * `astype(str)` and stripped, then first and last name and city are
 * title-cased and email is lower-cased.
 */
module StringCleaning {
  import opened Wrappers
  import opened Text
  import opened Records

  /**
   * The columns `select_dtypes(include=['object'])` returns on the raw sheet,
   * in sheet order: every column except the integer `employee_id`.
   */
  const ObjectColumns: seq<Col> := [
    Text(FirstName), Text(LastName), Text(Email), Text(Gender), Text(Department),
    Text(Currency), Text(Country), Text(State), Text(City),
    Salary, ManagerId, HireDate, ExitDate]

  lemma EveryColumnIsObject(c: Col)
    ensures c in ObjectColumns
  {
    match c
    case Text(t) => {
      match t
      case FirstName => assert ObjectColumns[0] == c;
      case LastName => assert ObjectColumns[1] == c;
      case Email => assert ObjectColumns[2] == c;
      case Gender => assert ObjectColumns[3] == c;
      case Department => assert ObjectColumns[4] == c;
      case Currency => assert ObjectColumns[5] == c;
      case Country => assert ObjectColumns[6] == c;
      case State => assert ObjectColumns[7] == c;
      case City => assert ObjectColumns[8] == c;
    }
    case Salary => assert ObjectColumns[9] == c;
    case ManagerId => assert ObjectColumns[10] == c;
    case HireDate => assert ObjectColumns[11] == c;
    case ExitDate => assert ObjectColumns[12] == c;
  }

  /** `astype(str).str.strip()` on one cell: a missing cell becomes "nan". */
  function TrimCell(v: Option<string>): string {
    Strip(AsText(v))
  }

  /** The same, as the cell rule the loop applies; its result is always present. */
  function TrimRule(v: Option<string>): Option<string> {
    Some(TrimCell(v))
  }

  /** `df[col] = rule(df[col])` on one row. */
  function ApplyToColumn(r: RawRow, c: Col, rule: Option<string> -> Option<string>): RawRow {
    Set(r, c, rule(Get(r, c)))
  }

  /** The row after the loop body has run for each column of `cols` in turn. */
  function ApplyToColumns(r: RawRow, cols: seq<Col>, rule: Option<string> -> Option<string>): RawRow
    decreases |cols|
  {
    if cols == [] then r
    else ApplyToColumn(ApplyToColumns(r, cols[..|cols| - 1], rule), cols[|cols| - 1], rule)
  }

  /** The rule applied to every column of the row at once. */
  function ApplyToAll(r: RawRow, rule: Option<string> -> Option<string>): RawRow {
    var t := r.text;
    RawRow(
      r.employeeId,
      Texts(
        rule(t.firstName), rule(t.lastName), rule(t.email), rule(t.gender), rule(t.department),
        rule(t.currency), rule(t.country), rule(t.state), rule(t.city)),
      rule(r.salary), rule(r.managerId), rule(r.hireDate), rule(r.exitDate))
  }

  /** `.str.f()` on a cell: a present value is rewritten, a missing one stays missing. */
  function StrMap(v: Option<string>, f: string -> string): Option<string> {
    match v
    case None => None
    case Some(s) => Some(f(s))
  }

  /** `df[col] = df[col].str.f()` on one row, for a text column. */
  function MapText(r: RawRow, c: TextCol, f: string -> string): RawRow {
    r.(text := SetText(r.text, c, StrMap(GetText(r.text, c), f)))
  }

  /** The case rule of each column: title for names and city, lower for email, none elsewhere. */
  function CaseRule(c: Col, s: string): string {
    match c
    case Text(FirstName) => Title(s)
    case Text(LastName) => Title(s)
    case Text(Email) => Lower(s)
    case Text(City) => Title(s)
    case _ => s
  }

  /** The four case conversions that follow the loop, in the order the source applies them. */
  function CaseColumns(r: RawRow): RawRow {
    MapText(MapText(MapText(MapText(r, FirstName, Title), LastName, Title), Email, Lower), City, Title)
  }

  /** One cell as `clean_strings` leaves it: trimmed text under its column's case rule. */
  function CleanCell(c: Col, v: Option<string>): Option<string> {
    Some(CaseRule(c, TrimCell(v)))
  }

  /** A rule that may depend on the column, applied to every column of the row. */
  function ApplyByColumn(r: RawRow, rule: (Col, Option<string>) -> Option<string>): RawRow {
    var t := r.text;
    RawRow(
      r.employeeId,
      Texts(
        rule(Text(FirstName), t.firstName), rule(Text(LastName), t.lastName),
        rule(Text(Email), t.email), rule(Text(Gender), t.gender),
        rule(Text(Department), t.department), rule(Text(Currency), t.currency),
        rule(Text(Country), t.country), rule(Text(State), t.state), rule(Text(City), t.city)),
      rule(Salary, r.salary), rule(ManagerId, r.managerId),
      rule(HireDate, r.hireDate), rule(ExitDate, r.exitDate))
  }

  /** One row as `clean_strings` leaves it. */
  function CleanRow(r: RawRow): RawRow {
    ApplyByColumn(r, CleanCell)
  }

  /** `clean_strings(df)`: the loop over the object columns, then the four case conversions. */
  method CleanStrings(df: Frame<RawRow>)
    modifies df
    ensures |df.rows| == |old(df.rows)|
    ensures forall i :: 0 <= i < |df.rows| ==> df.rows[i] == CleanRow(old(df.rows[i]))
  {
    ghost var rows0 := df.rows;
    for k := 0 to |ObjectColumns|
      invariant |df.rows| == |rows0|
      invariant forall i :: 0 <= i < |rows0| ==> df.rows[i] == ApplyToColumns(rows0[i], ObjectColumns[..k], TrimRule)
    {
      var col := ObjectColumns[k];
      df.rows := MapRows(df.rows, (r: RawRow) => ApplyToColumn(r, col, TrimRule));
      assert ObjectColumns[..k + 1][..k] == ObjectColumns[..k];
    }
    assert ObjectColumns[..|ObjectColumns|] == ObjectColumns;
    TrimRuleIdempotent();
    forall i | 0 <= i < |rows0| ensures df.rows[i] == ApplyToAll(rows0[i], TrimRule) {
      ApplyToObjectColumns(rows0[i], TrimRule);
    }
    ghost var trimmed := df.rows;
    df.rows := MapRows(df.rows, (r: RawRow) => MapText(r, FirstName, Title));
    df.rows := MapRows(df.rows, (r: RawRow) => MapText(r, LastName, Title));
    df.rows := MapRows(df.rows, (r: RawRow) => MapText(r, Email, Lower));
    df.rows := MapRows(df.rows, (r: RawRow) => MapText(r, City, Title));
    forall i | 0 <= i < |rows0| ensures df.rows[i] == CleanRow(rows0[i]) {
      assert df.rows[i] == CaseColumns(trimmed[i]);
      CaseColumnsOfTrimmed(rows0[i]);
    }
  }

  /**
   * After the loop has seen `cols`, each of those columns holds the rule
   * applied to its original value, however often it was visited (the rule
   * is idempotent); the other columns are untouched.
   */
  lemma {:induction false} ApplyToColumnsGet(r: RawRow, cols: seq<Col>, rule: Option<string> -> Option<string>, c: Col)
    requires forall v :: rule(rule(v)) == rule(v)
    ensures ApplyToColumns(r, cols, rule).employeeId == r.employeeId
    ensures Get(ApplyToColumns(r, cols, rule), c) == if c in cols then rule(Get(r, c)) else Get(r, c)
    decreases |cols|
  {
    if cols != [] {
      var prefix := cols[..|cols| - 1];
      var last := cols[|cols| - 1];
      ApplyToColumnsGet(r, prefix, rule, c);
      assert c in cols <==> c in prefix || c == last by {
        assert cols == prefix + [last];
      }
    }
  }

  lemma ApplyToAllGet(r: RawRow, rule: Option<string> -> Option<string>, c: Col)
    ensures ApplyToAll(r, rule).employeeId == r.employeeId
    ensures Get(ApplyToAll(r, rule), c) == rule(Get(r, c))
  {
  }

  /** The loop over all object columns is the rule applied to every column at once. */
  lemma ApplyToObjectColumns(r: RawRow, rule: Option<string> -> Option<string>)
    requires forall v :: rule(rule(v)) == rule(v)
    ensures ApplyToColumns(r, ObjectColumns, rule) == ApplyToAll(r, rule)
  {
    var looped := ApplyToColumns(r, ObjectColumns, rule);
    forall c ensures Get(looped, c) == Get(ApplyToAll(r, rule), c) {
      ApplyToColumnsGet(r, ObjectColumns, rule, c);
      ApplyToAllGet(r, rule, c);
      EveryColumnIsObject(c);
    }
    ApplyToColumnsGet(r, ObjectColumns, rule, Salary);
    RawRowsEqual(looped, ApplyToAll(r, rule));
  }

  /** Trimming twice is trimming once. */
  lemma TrimRuleIdempotent()
    ensures forall v :: TrimRule(TrimRule(v)) == TrimRule(v)
  {
    forall v ensures TrimRule(TrimRule(v)) == TrimRule(v) {
      StripIdempotent(AsText(v));
    }
  }

  /** The case conversions rewrite each present cell by its column's case rule, and nothing else. */
  lemma CaseColumnsGet(r: RawRow, c: Col)
    ensures CaseColumns(r).employeeId == r.employeeId
    ensures Get(r, c).Some? ==> Get(CaseColumns(r), c) == Some(CaseRule(c, Get(r, c).value))
  {
  }

  lemma ApplyByColumnGet(r: RawRow, rule: (Col, Option<string>) -> Option<string>, c: Col)
    ensures ApplyByColumn(r, rule).employeeId == r.employeeId
    ensures Get(ApplyByColumn(r, rule), c) == rule(c, Get(r, c))
  {
  }

  /** The trim loop followed by the four case conversions is the cell rule applied to every column. */
  lemma CaseColumnsOfTrimmed(r: RawRow)
    ensures CaseColumns(ApplyToAll(r, TrimRule)) == CleanRow(r)
  {
    var trimmed := ApplyToAll(r, TrimRule);
    var cased := CaseColumns(trimmed);
    forall c ensures Get(cased, c) == Get(CleanRow(r), c) {
      ApplyToAllGet(r, TrimRule, c);
      CaseColumnsGet(trimmed, c);
      ApplyByColumnGet(r, CleanCell, c);
    }
    CaseColumnsGet(trimmed, Salary);
    ApplyToAllGet(r, TrimRule, Salary);
    RawRowsEqual(cased, CleanRow(r));
  }

  /** Each cell of a cleaned row is the cell rule applied to the same cell of the raw row. */
  lemma CleanRowCell(r: RawRow, c: Col)
    ensures CleanRow(r).employeeId == r.employeeId
    ensures Get(CleanRow(r), c) == CleanCell(c, Get(r, c))
  {
    ApplyByColumnGet(r, CleanCell, c);
  }

  /** A cleaned cell is present and has no surrounding whitespace. */
  lemma CleanCellStripped(c: Col, v: Option<string>)
    ensures CleanCell(c, v).Some? && IsStripped(CleanCell(c, v).value)
  {
    CaseRuleKeepsStripped(c, TrimCell(v));
  }

  /** The case rules neither add nor remove characters, so a trimmed value stays trimmed. */
  lemma CaseRuleKeepsStripped(c: Col, s: string)
    requires IsStripped(s)
    ensures IsStripped(CaseRule(c, s))
  {
    match c
    case Text(Email) => LowerKeepsStripped(s);
    case Text(FirstName) => TitleKeepsStripped(s);
    case Text(LastName) => TitleKeepsStripped(s);
    case Text(City) => TitleKeepsStripped(s);
    case _ =>
  }

  /** After `clean_strings` no cell is missing and none has surrounding whitespace. */
  lemma CleanRowStripped(r: RawRow, c: Col)
    ensures Get(CleanRow(r), c).Some? && IsStripped(Get(CleanRow(r), c).value)
  {
    CleanRowCell(r, c);
    CleanCellStripped(c, Get(r, c));
  }

  lemma CleanCellMissing(c: Col)
    ensures CleanCell(c, None) == Some(CaseRule(c, "nan"))
  {
    StripStripped("nan");
  }

  /** A missing cell comes out as the text "nan", under its column's case rule. */
  lemma CleanRowMissing(r: RawRow, c: Col)
    requires Get(r, c) == None
    ensures Get(CleanRow(r), c) == Some(CaseRule(c, "nan"))
  {
    CleanRowCell(r, c);
    CleanCellMissing(c);
  }

  lemma CleanCellCases(v: Option<string>)
    ensures IsLowercase(CleanCell(Text(Email), v).value)
    ensures IsTitleCased(CleanCell(Text(FirstName), v).value)
    ensures IsTitleCased(CleanCell(Text(LastName), v).value)
    ensures IsTitleCased(CleanCell(Text(City), v).value)
  {
    LowerIsLowercase(TrimCell(v));
    TitleIsTitleCased(TrimCell(v));
  }

  /** Email comes out lower case; first name, last name and city title case. */
  lemma CleanRowCases(r: RawRow)
    ensures CleanRow(r).text.email.Some? && IsLowercase(CleanRow(r).text.email.value)
    ensures CleanRow(r).text.firstName.Some? && IsTitleCased(CleanRow(r).text.firstName.value)
    ensures CleanRow(r).text.lastName.Some? && IsTitleCased(CleanRow(r).text.lastName.value)
    ensures CleanRow(r).text.city.Some? && IsTitleCased(CleanRow(r).text.city.value)
  {
    CleanRowCell(r, Text(Email));
    CleanCellCases(r.text.email);
    CleanRowCell(r, Text(FirstName));
    CleanCellCases(r.text.firstName);
    CleanRowCell(r, Text(LastName));
    CleanCellCases(r.text.lastName);
    CleanRowCell(r, Text(City));
    CleanCellCases(r.text.city);
  }

  lemma CleanCellOnlyTrims(c: Col, v: Option<string>)
    requires c != Text(FirstName) && c != Text(LastName) && c != Text(Email) && c != Text(City)
    ensures CleanCell(c, v) == Some(Strip(AsText(v)))
  {
  }

  /** Every column other than first name, last name, email and city is only trimmed. */
  lemma CleanRowOnlyTrims(r: RawRow, c: Col)
    requires c != Text(FirstName) && c != Text(LastName) && c != Text(Email) && c != Text(City)
    ensures Get(CleanRow(r), c) == Some(Strip(AsText(Get(r, c))))
  {
    CleanRowCell(r, c);
    CleanCellOnlyTrims(c, Get(r, c));
  }

  lemma TitleOfNan()
    ensures Title("nan") == "Nan"
  {
    TitleAt("nan", 0);
    TitleAt("nan", 1);
    TitleAt("nan", 2);
  }

  /** A missing first name comes out as "Nan": "nan" from `astype(str)`, then title case. */
  lemma MissingNameBecomesNan(r: RawRow)
    requires r.text.firstName == None
    ensures CleanRow(r).text.firstName == Some("Nan")
  {
    CleanRowMissing(r, Text(FirstName));
    TitleOfNan();
  }

  /** The case rule keeps a trimmed value trimmed and is itself idempotent. */
  lemma CaseRuleStable(c: Col, s: string)
    requires IsStripped(s)
    ensures IsStripped(CaseRule(c, s))
    ensures CaseRule(c, Strip(CaseRule(c, s))) == CaseRule(c, s)
  {
    CaseRuleKeepsStripped(c, s);
    StripStripped(CaseRule(c, s));
    TitleIdempotent(s);
    LowerIdempotent(s);
  }

  /** Cleaning a cleaned cell again changes nothing. */
  lemma CleanCellIdempotent(c: Col, v: Option<string>)
    ensures CleanCell(c, CleanCell(c, v)) == CleanCell(c, v)
  {
    StripIdempotent(AsText(v));
    CaseRuleStable(c, TrimCell(v));
  }

  /** Running `clean_strings` on its own output changes nothing. */
  lemma CleanRowIdempotent(r: RawRow)
    ensures CleanRow(CleanRow(r)) == CleanRow(r)
  {
    var once := CleanRow(r);
    forall c ensures Get(CleanRow(once), c) == Get(once, c) {
      CleanRowCell(r, c);
      CleanRowCell(once, c);
      CleanCellIdempotent(c, Get(r, c));
    }
    CleanRowCell(once, Salary);
    RawRowsEqual(CleanRow(once), once);
  }
}
