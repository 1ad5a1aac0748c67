/**
 * Step 4, `convert_data_types`: salary text loses its thousands separators and
 * surrounding whitespace and is parsed as a number, manager id is parsed as a
 * number, and both dates are parsed as dates. A value that does not parse
 * becomes missing; nothing here raises.
 */
module TypeConversion {
  import opened Wrappers
  import opened Text
  import opened Numeric
  import opened Records
  import opened StringCleaning

  /** `astype(str).str.replace(',', '').str.strip()` on the salary cell. */
  function SalaryText(v: Option<string>): (t: string)
    ensures ',' !in t && IsStripped(t)
  {
    var noCommas := RemoveAll(AsText(v), ',');
    RemoveAllRemoves(AsText(v), ',');
    Strip(noCommas)
  }

  /** `pd.to_numeric(..., errors='coerce')` on a cell that may be missing. */
  function ParseCell(v: Option<string>): Option<Decimal> {
    match v
    case None => None
    case Some(t) => ParseNumber(t)
  }

  /**
   * The texts `pd.to_datetime` reads as "not a time" whatever the format: the
   * empty text and the spellings of NaN and NaT.
   */
  const NotATime: set<string> := {"", "nan", "NaN", "NAN", "NaT", "nat", "NAT"}

  /**
   * `pd.to_datetime(..., format='mixed', dayfirst=True, errors='coerce')` on a
   * cell. A missing cell and a "not a time" text give a missing date; any
   * other text goes to the date parser, which is the parameter `parseDate`.
   */
  function ParseDateCell(v: Option<string>, parseDate: string -> Option<Day>): Option<Day> {
    match v
    case None => None
    case Some(t) => if t in NotATime then None else parseDate(t)
  }

  /** One row after `convert_data_types`. */
  function ConvertRow(r: RawRow, parseDate: string -> Option<Day>): Employee {
    Employee(
      r.employeeId,
      r.text,
      ParseNumber(SalaryText(r.salary)),
      ParseCell(r.managerId),
      ParseDateCell(r.hireDate, parseDate),
      ParseDateCell(r.exitDate, parseDate),
      None)
  }

  /**
   * `convert_data_types(df)`: the four columns change dtype, so the model
   * gives the typed table as a new value. The id and every text column pass
   * through unchanged, and no row is added or lost.
   */
  function ConvertDataTypes(rows: seq<RawRow>, parseDate: string -> Option<Day>): (r: seq<Employee>)
    ensures |r| == |rows|
    ensures forall i :: 0 <= i < |rows| ==>
      && r[i].employeeId == rows[i].employeeId
      && r[i].text == rows[i].text
      && r[i].emailValid == None
      && r[i].salary == ParseNumber(SalaryText(rows[i].salary))
  {
    seq(|rows|, i requires 0 <= i < |rows| => ConvertRow(rows[i], parseDate))
  }

  /** The counts `convert_data_types` reports: missing values after each conversion. */
  datatype ConversionReport = ConversionReport(
    salaryIssues: nat, managerNulls: nat, hireInvalid: nat, exitNulls: nat)

  function ConversionCounts(rows: seq<Employee>): (report: ConversionReport)
    ensures report.salaryIssues <= |rows| && report.managerNulls <= |rows|
    ensures report.hireInvalid <= |rows| && report.exitNulls <= |rows|
  {
    ConversionReport(
      CountWhere(rows, (e: Employee) => e.salary.None?),
      CountWhere(rows, (e: Employee) => e.managerId.None?),
      CountWhere(rows, (e: Employee) => e.hireDate.None?),
      CountWhere(rows, (e: Employee) => e.exitDate.None?))
  }

  /** Removing a character from a concatenation removes it from each part. */
  lemma {:induction false} RemoveAllAppend(a: string, b: string, c: char)
    ensures RemoveAll(a + b, c) == RemoveAll(a, c) + RemoveAll(b, c)
    decreases |a|
  {
    if a == [] {
      assert a + b == b;
    } else {
      assert (a + b)[0] == a[0];
      assert (a + b)[1..] == a[1..] + b;
      RemoveAllAppend(a[1..], b, c);
    }
  }

  /** The thousands separator between two digit groups disappears, and nothing else does. */
  lemma SeparatorRemoved(sign: Sign, head: string, tail: string, frac: string)
    requires AllDigits(head) && AllDigits(tail) && AllDigits(frac)
    ensures RemoveAll(SignText(sign) + head + "," + tail + "." + frac, ',') == SignText(sign) + (head + tail) + "." + frac
  {
    var prefix := SignText(sign) + head;
    var rest := tail + "." + frac;
    var separated := "," + rest;
    assert SignText(sign) + head + "," + tail + "." + frac == prefix + separated;
    assert SignText(sign) + (head + tail) + "." + frac == prefix + rest;
    assert forall i :: 0 <= i < |prefix| ==> prefix[i] != ',';
    assert forall i :: 0 <= i < |rest| ==> rest[i] != ',';
    RemoveAllRemoves(prefix, ',');
    RemoveAllRemoves(rest, ',');
    assert separated[0] == ',' && separated[1..] == rest;
    RemoveAllAppend(prefix, separated, ',');
  }

  /**
   * A salary written with any number of thousands separators, such as
   * "-4,500.00" or "1,234,567.00", loses them and parses to the number it
   * denotes, sign included.
   */
  lemma SeparatedSalaryParses(r: RawRow, parseDate: string -> Option<Day>,
                              sign: Sign, whole: string, frac: string)
    requires AllDigits(whole) && AllDigits(frac) && |whole| > 0
    requires r.salary.Some? && RemoveAll(r.salary.value, ',') == SignText(sign) + whole + "." + frac
    ensures ConvertRow(r, parseDate).salary == Some(Signed(sign, DecimalValue(whole, frac)))
  {
    var n := SignText(sign) + whole + "." + frac;
    assert !IsSpace(n[0]) by {
      if sign == Unsigned {
        assert n[0] == whole[0];
      }
    }
    StripStripped(n);
    ParsePointed(sign, whole, frac);
  }

  /**
   * A salary without a decimal point, such as "4,500" or "-1,000,000", loses
   * its separators and parses to the integer it denotes, sign included.
   */
  lemma SeparatedWholeSalaryParses(r: RawRow, parseDate: string -> Option<Day>,
                                   sign: Sign, whole: string)
    requires AllDigits(whole) && |whole| > 0
    requires r.salary.Some? && RemoveAll(r.salary.value, ',') == SignText(sign) + whole
    ensures ConvertRow(r, parseDate).salary == Some(Signed(sign, Decimal(DigitsValue(whole), 0)))
  {
    SignedDigitsStripped(sign, whole);
    StripStripped(SignText(sign) + whole);
    ParseWhole(sign, whole);
  }

  lemma SignedDigitsStripped(sign: Sign, whole: string)
    requires AllDigits(whole) && |whole| > 0
    ensures IsStripped(SignText(sign) + whole)
  {
    var n := SignText(sign) + whole;
    assert n[|n| - 1] == whole[|whole| - 1];
    if sign == Unsigned {
      assert n[0] == whole[0];
    }
  }

  /** A missing salary reads "nan" after `astype(str)`, which does not parse: it stays missing. */
  lemma MissingSalaryStaysMissing(r: RawRow, parseDate: string -> Option<Day>)
    requires r.salary == None
    ensures ConvertRow(r, parseDate).salary == None
  {
    assert RemoveAll("nan", ',') == "nan";
    StripStripped("nan");
    RejectsForeignChar("nan", 0);
  }

  /**
   * A missing date reads "nan" once it has been through the string cleaning
   * step, and "nan" is never a date: whatever the date parser does with other
   * text, a date that was missing stays missing.
   */
  lemma MissingDateStaysMissing(r: RawRow, parseDate: string -> Option<Day>)
    ensures r.hireDate == None ==> ConvertRow(CleanRow(r), parseDate).hireDate == None
    ensures r.exitDate == None ==> ConvertRow(CleanRow(r), parseDate).exitDate == None
  {
    CleanRowOnlyTrims(r, HireDate);
    CleanRowOnlyTrims(r, ExitDate);
    StripStripped("nan");
  }

  /**
   * Salary text that still holds a character other than a digit, a sign or a
   * point once commas and surrounding whitespace are gone (a currency symbol,
   * an inner space) becomes missing rather than an error.
   */
  lemma UnparseableSalaryIsMissing(r: RawRow, parseDate: string -> Option<Day>, i: nat)
    requires i < |SalaryText(r.salary)|
    requires var c := SalaryText(r.salary)[i]; !IsDigit(c) && c != '.' && c != '-' && c != '+'
    ensures ConvertRow(r, parseDate).salary == None
  {
    RejectsForeignChar(SalaryText(r.salary), i);
  }

  /** Removing commas first matters: with a comma left in, the text would not parse. */
  lemma CommaBlocksParsing(s: string, i: nat)
    requires i < |s| && s[i] == ','
    ensures ParseNumber(s) == None
  {
    RejectsForeignChar(s, i);
  }
}
