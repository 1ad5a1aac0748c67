/**
 * `main`: the cleaning steps in their fixed order. Step 3 works on the raw
 * table; step 4 changes the column types and so builds a typed table, on
 * which steps 5 to 14 work. Loading, exploring, the missing-value analysis,
 * the quality report and the export only read or print the table and are not
 * modelled; the counts the steps print are returned as a report.
 */
module Pipeline {
  import opened Wrappers
  import opened Text
  import opened Numeric
  import opened Records
  import opened StringCleaning
  import opened TypeConversion
  import opened Categories
  import opened Validation
  import opened Dedup

  /** Every text column is present and carries no surrounding whitespace. */
  predicate TextsClean(t: Texts) {
    forall c :: GetText(t, c).Some? && IsStripped(GetText(t, c).value)
  }

  /**
   * A standardised category: present, and either one of the table's
   * canonical values or a value the table has no entry for.
   */
  predicate Standardized(v: Option<string>, m: map<string, string>, vals: set<string>) {
    v.Some? && (v.value in vals || v.value !in m)
  }

  /** Each of the five category columns is standardised by its own table. */
  predicate CategoriesStandard(t: Texts) {
    && Standardized(GetText(t, Gender), GenderMap, GenderValues)
    && Standardized(GetText(t, Department), DepartmentMap, DepartmentValues)
    && Standardized(GetText(t, Currency), CurrencyMap, CurrencyValues)
    && Standardized(GetText(t, Country), CountryMap, CountryValues)
    && Standardized(GetText(t, State), StateMap, StateValues)
  }

  /** What the pipeline guarantees of each row it returns. */
  predicate CleanEmployee(e: Employee) {
    && TextsClean(e.text)
    && CategoriesStandard(e.text)
    && e.emailValid.Some?
    && !NegativeSalary(e)
    && !InvalidDates(e)
  }

  function RawIds(rows: seq<RawRow>): set<int> {
    set i | 0 <= i < |rows| :: rows[i].employeeId
  }

  /** The counts the steps print along the way. */
  datatype Report = Report(
    conversion: ConversionReport,
    invalidEmails: nat,
    negativeSalaries: nat,
    invalidDates: nat,
    duplicates: nat)

  /** After string cleaning every text column is present and trimmed. */
  lemma CleanRowTextsClean(r: RawRow)
    ensures TextsClean(CleanRow(r).text)
  {
    forall c ensures GetText(CleanRow(r).text, c).Some? && IsStripped(GetText(CleanRow(r).text, c).value) {
      CleanRowStripped(r, Text(c));
    }
  }

  /** A standardiser whose table values are trimmed keeps the text columns clean and touches nothing else. */
  lemma ReplaceColumnKeepsClean(e: Employee, c: TextCol, m: map<string, string>)
    requires ValuesStripped(m) && TextsClean(e.text)
    ensures TextsClean(ReplaceColumn(e, c, m).text)
    ensures ReplaceColumn(e, c, m).(text := e.text) == e
  {
    var v := GetText(e.text, c);
    LookupKeepsStripped(m, v.value);
  }

  /** The department step keeps the text columns clean and touches nothing else. */
  lemma DepartmentRowKeepsClean(e: Employee, m: map<string, string>)
    requires ValuesStripped(m) && TextsClean(e.text)
    ensures TextsClean(DepartmentRow(e, m).text)
    ensures DepartmentRow(e, m).(text := e.text) == e
  {
    var s := Strip(AsText(GetText(e.text, Department)));
    LookupKeepsStripped(m, s);
  }

  /** Steps 5 to 9 on one row. */
  function StandardizeRow(e: Employee): Employee {
    var g := ReplaceColumn(e, Gender, GenderMap);
    var d := DepartmentRow(g, DepartmentMap);
    var c := ReplaceColumn(d, Currency, CurrencyMap);
    var n := ReplaceColumn(c, Country, CountryMap);
    ReplaceColumn(n, State, StateMap)
  }

  /** Steps 5 to 9 keep every text column present and trimmed, and change no other column. */
  lemma StandardizeRowKeepsClean(e: Employee)
    requires TextsClean(e.text)
    ensures TextsClean(StandardizeRow(e).text)
    ensures StandardizeRow(e).(text := e.text) == e
  {
    StandardTablesStripped();
    var g := ReplaceColumn(e, Gender, GenderMap);
    ReplaceColumnKeepsClean(e, Gender, GenderMap);
    var d := DepartmentRow(g, DepartmentMap);
    DepartmentRowKeepsClean(g, DepartmentMap);
    var c := ReplaceColumn(d, Currency, CurrencyMap);
    ReplaceColumnKeepsClean(d, Currency, CurrencyMap);
    var n := ReplaceColumn(c, Country, CountryMap);
    ReplaceColumnKeepsClean(c, Country, CountryMap);
    ReplaceColumnKeepsClean(n, State, StateMap);
  }

  /** One standardiser leaves its column standardised and every other column as it was. */
  lemma ReplaceColumnStandardizes(e: Employee, c: TextCol, m: map<string, string>, vals: set<string>)
    requires m.Values == vals && GetText(e.text, c).Some?
    ensures Standardized(GetText(ReplaceColumn(e, c, m).text, c), m, vals)
    ensures forall d :: d != c ==> GetText(ReplaceColumn(e, c, m).text, d) == GetText(e.text, d)
  {
    ReplaceStandardizes(m, vals, GetText(e.text, c));
  }

  /** The values of each of the five tables are exactly its canonical set. */
  lemma StandardTableValues()
    ensures GenderMap.Values == GenderValues && DepartmentMap.Values == DepartmentValues
    ensures CurrencyMap.Values == CurrencyValues && CountryMap.Values == CountryValues
    ensures StateMap.Values == StateValues
  {
    GenderTableWellFormed();
    DepartmentTableWellFormed();
    CurrencyTableWellFormed();
    CountryTableWellFormed();
    StateTableWellFormed();
  }

  /**
   * After steps 5 to 9 every category column holds a canonical value of its
   * table or a value that table has no entry for.
   */
  lemma StandardizeRowStandard(e: Employee)
    requires TextsClean(e.text)
    ensures CategoriesStandard(StandardizeRow(e).text)
  {
    StandardTableValues();
    var g := ReplaceColumn(e, Gender, GenderMap);
    ReplaceColumnStandardizes(e, Gender, GenderMap, GenderValues);
    var d := DepartmentRow(g, DepartmentMap);
    StripReplaceStandardizes(DepartmentMap, DepartmentValues, GetText(g.text, Department));
    var c := ReplaceColumn(d, Currency, CurrencyMap);
    ReplaceColumnStandardizes(d, Currency, CurrencyMap, CurrencyValues);
    var n := ReplaceColumn(c, Country, CountryMap);
    ReplaceColumnStandardizes(c, Country, CountryMap, CountryValues);
    ReplaceColumnStandardizes(n, State, StateMap, StateValues);
  }

  /** Steps 5 to 9, each applied to the whole table in turn. */
  method StandardizeCategories(df: Frame<Employee>)
    modifies df
    ensures |df.rows| == |old(df.rows)|
    ensures forall i :: 0 <= i < |df.rows| ==> df.rows[i] == StandardizeRow(old(df.rows[i]))
  {
    StandardizeGender(df);
    StandardizeDepartment(df);
    StandardizeCurrency(df);
    StandardizeCountry(df);
    StandardizeState(df);
  }

  /** Steps 10 to 12 on one row, whichever branch the salary and date steps take. */
  function ValidateRow(e: Employee): Employee {
    ClearInvalidExit(AbsSalary(FlagEmail(e)))
  }

  /** After steps 10 to 12 a row with clean text is a clean row, with the same id. */
  lemma ValidateRowClean(e: Employee)
    requires TextsClean(e.text) && CategoriesStandard(e.text)
    ensures CleanEmployee(ValidateRow(e)) && ValidateRow(e).employeeId == e.employeeId
  {
  }

  /**
   * A negative salary written with a thousands separator, such as
   * "-4,500.00", parses to a negative number that step 11 counts, and
   * comes out of steps 10 to 12 as its magnitude.
   */
  lemma NegativeSeparatedSalaryFixed(r: RawRow, parseDate: string -> Option<Day>,
                                     head: string, tail: string, frac: string)
    requires AllDigits(head) && AllDigits(tail) && AllDigits(frac) && |head| > 0
    requires DecimalValue(head + tail, frac).units > 0
    requires r.salary == Some(SignText(Minus) + head + "," + tail + "." + frac)
    ensures NegativeSalary(ConvertRow(r, parseDate))
    ensures ValidateRow(ConvertRow(r, parseDate)).salary == Some(DecimalValue(head + tail, frac))
  {
    SeparatorRemoved(Minus, head, tail, frac);
    assert AllDigits(head + tail);
    SeparatedSalaryParses(r, parseDate, Minus, head + tail, frac);
    NegativeSalaryFixed(ConvertRow(r, parseDate), DecimalValue(head + tail, frac));
  }

  /** A salary of minus a positive number is negative, and steps 10 to 12 leave its magnitude. */
  lemma NegativeSalaryFixed(e: Employee, v: Decimal)
    requires v.units > 0 && e.salary == Some(Signed(Minus, v))
    ensures NegativeSalary(e) && ValidateRow(e).salary == Some(v)
  {
  }

  /**
   * Steps 10 to 12 in turn. Each returned count is taken before its step
   * corrects anything, and none of the earlier steps changes what it counts,
   * so each is the count over the rows as they came in.
   */
  method ValidateAll(df: Frame<Employee>) returns (invalidEmails: nat, negatives: nat, invalidDates: nat)
    modifies df
    ensures |df.rows| == |old(df.rows)|
    ensures forall i :: 0 <= i < |df.rows| ==> df.rows[i] == ValidateRow(old(df.rows[i]))
    ensures invalidEmails == CountWhere(old(df.rows), FailsEmailCheck)
    ensures negatives == CountWhere(old(df.rows), NegativeSalary)
    ensures invalidDates == CountWhere(old(df.rows), InvalidDates)
  {
    ghost var rows0 := df.rows;
    invalidEmails := ValidateEmails(df);
    assert df.rows == MapRows(rows0, FlagEmail);
    CountWhereMap(rows0, FlagEmail, InvalidEmail, FailsEmailCheck);
    CountWhereMap(rows0, FlagEmail, NegativeSalary, NegativeSalary);
    var flagged := df.rows;
    negatives := FixNegativeSalariesIn(df);
    FixNegativeSalariesMeaning(flagged);
    var fixed := df.rows;
    assert fixed == MapRows(flagged, AbsSalary);
    CountWhereMap(flagged, AbsSalary, InvalidDates, InvalidDates);
    CountWhereMap(rows0, FlagEmail, InvalidDates, InvalidDates);
    invalidDates := ValidateDatesIn(df);
    ValidateDatesMeaning(fixed);
  }

  /** Ids of the typed table are the ids of the raw table when they agree row by row. */
  lemma SameIds(rows: seq<Employee>, raw: seq<RawRow>)
    requires |rows| == |raw|
    requires forall i :: 0 <= i < |rows| ==> rows[i].employeeId == raw[i].employeeId
    ensures Ids(rows) == RawIds(raw)
  {
    forall id | id in RawIds(raw) ensures id in Ids(rows) {
      var i :| 0 <= i < |raw| && raw[i].employeeId == id;
      assert rows[i].employeeId == id;
    }
  }

  /** Every row that `drop_duplicates` keeps is a row of its input. */
  lemma KeepFirstRows(rows: seq<Employee>, p: Employee -> bool)
    requires forall i :: 0 <= i < |rows| ==> p(rows[i])
    ensures forall j :: 0 <= j < |KeepFirst(rows)| ==> p(KeepFirst(rows)[j])
  {
    KeepFirstKeepsFirst(rows);
    var r := KeepFirst(rows);
    forall j | 0 <= j < |r| ensures p(r[j]) {
      assert r[j].employeeId in Ids(rows) && r[j] == rows[FirstIndex(rows, r[j].employeeId)];
      var k := FirstIndex(rows, r[j].employeeId);
      assert r[j] == rows[k];
    }
  }

  /** After steps 3 and 4 every text column is present and trimmed, and each row keeps its id. */
  lemma TypedRowsClean(raw: seq<RawRow>, cleaned: seq<RawRow>, parseDate: string -> Option<Day>)
    requires |cleaned| == |raw|
    requires forall i :: 0 <= i < |raw| ==> cleaned[i] == CleanRow(raw[i])
    ensures var typed := ConvertDataTypes(cleaned, parseDate);
      forall i :: 0 <= i < |typed| ==> TextsClean(typed[i].text) && typed[i].employeeId == raw[i].employeeId
  {
    var typed := ConvertDataTypes(cleaned, parseDate);
    forall i | 0 <= i < |typed| ensures TextsClean(typed[i].text) && typed[i].employeeId == raw[i].employeeId {
      CleanRowTextsClean(raw[i]);
      CleanRowCell(raw[i], Salary);
    }
  }

  /** The table after steps 3 and 4. */
  function TypedRows(raw: seq<RawRow>, parseDate: string -> Option<Day>): seq<Employee> {
    ConvertDataTypes(MapRows(raw, CleanRow), parseDate)
  }

  /** The table after steps 3 to 9. */
  function StandardizedRows(raw: seq<RawRow>, parseDate: string -> Option<Day>): seq<Employee> {
    MapRows(TypedRows(raw, parseDate), StandardizeRow)
  }

  /** The table after steps 3 to 12. */
  function ValidatedRows(raw: seq<RawRow>, parseDate: string -> Option<Day>): seq<Employee> {
    MapRows(StandardizedRows(raw, parseDate), ValidateRow)
  }

  /**
   * Every row after steps 3 to 12 is clean and keeps the id of the raw row
   * it came from.
   */
  lemma ValidatedRowsClean(raw: seq<RawRow>, parseDate: string -> Option<Day>)
    ensures |ValidatedRows(raw, parseDate)| == |raw|
    ensures forall i :: 0 <= i < |raw| ==>
      CleanEmployee(ValidatedRows(raw, parseDate)[i]) && ValidatedRows(raw, parseDate)[i].employeeId == raw[i].employeeId
  {
    var cleaned := MapRows(raw, CleanRow);
    var typed := TypedRows(raw, parseDate);
    var standardized := StandardizedRows(raw, parseDate);
    TypedRowsClean(raw, cleaned, parseDate);
    forall i | 0 <= i < |raw|
      ensures CleanEmployee(ValidatedRows(raw, parseDate)[i]) && ValidatedRows(raw, parseDate)[i].employeeId == raw[i].employeeId
    {
      StandardizeRowKeepsClean(typed[i]);
      StandardizeRowStandard(typed[i]);
      ValidateRowClean(standardized[i]);
    }
  }

  /**
   * Steps 3 to 12 and 14 of `main`, in that order. The table returned is the
   * composition of the steps, and the report holds the counts each step
   * takes of its own input. Every row returned has every text column present
   * and trimmed, standardised categories, an email flag, no negative salary
   * and no exit date before its hire date; the ids are the input's ids, each
   * once; and exactly the reported number of duplicates was dropped.
   */
  method CleanEmployeeData(raw: seq<RawRow>, parseDate: string -> Option<Day>)
    returns (clean: seq<Employee>, report: Report)
    ensures clean == RemoveDuplicates(ValidatedRows(raw, parseDate))
    ensures report == Report(
      ConversionCounts(TypedRows(raw, parseDate)),
      CountWhere(StandardizedRows(raw, parseDate), FailsEmailCheck),
      CountWhere(StandardizedRows(raw, parseDate), NegativeSalary),
      CountWhere(StandardizedRows(raw, parseDate), InvalidDates),
      DuplicatedCount(ValidatedRows(raw, parseDate)))
    ensures forall i :: 0 <= i < |clean| ==> CleanEmployee(clean[i])
    ensures UniqueIds(clean)
    ensures Ids(clean) == RawIds(raw)
    ensures report.duplicates == |raw| - |clean|
  {
    // Step 3
    var strings := new Frame(raw);
    CleanStrings(strings);
    assert strings.rows == MapRows(raw, CleanRow);
    // Step 4
    var typed := ConvertDataTypes(strings.rows, parseDate);
    var df := new Frame(typed);
    var conversion := ConversionCounts(typed);
    // Steps 5 to 9
    StandardizeCategories(df);
    var standardized := df.rows;
    assert standardized == StandardizedRows(raw, parseDate);
    // Steps 10 to 12
    var invalidEmails, negatives, invalidDates := ValidateAll(df);
    var validated := df.rows;
    assert validated == ValidatedRows(raw, parseDate);
    ValidatedRowsClean(raw, parseDate);
    SameIds(validated, raw);
    // Step 14
    var duplicates := RemoveDuplicatesIn(df);
    RemoveDuplicatesMeaning(validated);
    RemoveDuplicatesIsKeepFirst(validated);
    KeepFirstRows(validated, CleanEmployee);

    clean := df.rows;
    report := Report(conversion, invalidEmails, negatives, invalidDates, duplicates);
  }
}
