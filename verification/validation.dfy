/**
 * Steps 10 to 12: the email flag, the negative-salary fix and the exit-date
 * check. Each step counts the offending rows first; the salary and date
 * steps only rewrite the column when that count is positive.
 */
module Validation {
  import opened Wrappers
  import opened Numeric
  import opened Records

  // ---------------------------------------------------------------- emails

  /**
   * The regular expression `.+@.+\..+` under `re.match`: anchored at the
   * start only, with `.` matching any character except a line feed. There
   * is an '@' with at least one character before it, a '.' with at least one
   * character between the two and at least one after the '.', and no line
   * feed up to that last character.
   */
  ghost predicate MatchesEmailPattern(s: string) {
    exists at, dot :: 1 <= at && at + 2 <= dot && dot + 1 < |s| &&
      s[at] == '@' && s[dot] == '.' && '\n' !in s[..dot + 2]
  }

  /** The text before the first line feed, the only part the pattern can see. */
  function FirstLine(s: string): (line: string)
    ensures line <= s && '\n' !in line
    ensures |line| < |s| ==> s[|line|] == '\n'
  {
    s[..IndexOf(s, '\n')]
  }

  /**
   * A matcher for the pattern: take the first '@' after the first character of
   * the first line and look for a '.' two or more characters later that is
   * not the line's last character.
   */
  function MatchesEmail(s: string): bool {
    var line := FirstLine(s);
    if |line| == 0 then false
    else
      var at := 1 + IndexOf(line[1..], '@');
      at + 2 <= |line| - 1 && '.' in line[at + 2..|line| - 1]
  }

  lemma MatchesEmailSound(s: string)
    requires MatchesEmail(s)
    ensures MatchesEmailPattern(s)
  {
    var line := FirstLine(s);
    var at := 1 + IndexOf(line[1..], '@');
    var j :| 0 <= j < |line[at + 2..|line| - 1]| && line[at + 2..|line| - 1][j] == '.';
    var dot := at + 2 + j;
    assert line[1..][at - 1] == '@';
    assert s[..dot + 2] == line[..dot + 2];
    assert s[at] == '@' && s[dot] == '.';
  }

  lemma MatchesEmailComplete(s: string)
    requires MatchesEmailPattern(s)
    ensures MatchesEmail(s)
  {
    var line := FirstLine(s);
    var at, dot :| 1 <= at && at + 2 <= dot && dot + 1 < |s| &&
      s[at] == '@' && s[dot] == '.' && '\n' !in s[..dot + 2];
    assert forall i :: 0 <= i < dot + 2 ==> s[i] != '\n' by {
      forall i | 0 <= i < dot + 2 ensures s[i] != '\n' {
        assert s[..dot + 2][i] == s[i];
      }
    }
    assert line[1..][at - 1] == '@';
    var first := 1 + IndexOf(line[1..], '@');
    assert line[first + 2..|line| - 1][dot - (first + 2)] == '.';
  }

  /** The matcher accepts exactly the texts the pattern matches. */
  lemma MatchesEmailCorrect(s: string)
    ensures MatchesEmail(s) <==> MatchesEmailPattern(s)
  {
    if MatchesEmail(s) {
      MatchesEmailSound(s);
    }
    if MatchesEmailPattern(s) {
      MatchesEmailComplete(s);
    }
  }

  /** `str.match(pattern, na=False)`: a missing email is flagged invalid. */
  function EmailFlag(email: Option<string>): bool {
    match email
    case None => false
    case Some(s) => MatchesEmail(s)
  }

  function FlagEmail(e: Employee): Employee {
    e.(emailValid := Some(EmailFlag(e.text.email)))
  }

  predicate InvalidEmail(e: Employee) {
    e.emailValid == Some(false)
  }

  /** The row's email will be flagged invalid: it is missing or does not match. */
  predicate FailsEmailCheck(e: Employee) {
    !EmailFlag(e.text.email)
  }

  /** Step 10: adds the flag to every row and returns how many rows are flagged invalid. */
  method ValidateEmails(df: Frame<Employee>) returns (invalid: nat)
    modifies df
    ensures |df.rows| == |old(df.rows)|
    ensures forall i :: 0 <= i < |df.rows| ==> df.rows[i] == FlagEmail(old(df.rows[i]))
    ensures invalid == CountWhere(df.rows, InvalidEmail)
  {
    df.rows := MapRows(df.rows, FlagEmail);
    invalid := CountWhere(df.rows, InvalidEmail);
  }

  /** After the flag step every row carries a flag, true exactly when the email matches the pattern. */
  lemma FlagEmailMeaning(e: Employee)
    ensures FlagEmail(e).emailValid.Some?
    ensures FlagEmail(e).emailValid.value <==> e.text.email.Some? && MatchesEmailPattern(e.text.email.value)
    ensures FlagEmail(e).(emailValid := e.emailValid) == e
  {
    if e.text.email.Some? {
      MatchesEmailCorrect(e.text.email.value);
    }
  }

  /** A typical address is accepted. */
  lemma EmailAcceptedExample()
    ensures MatchesEmail("a@b.co")
  {
    assert FirstLine("a@b.co") == "a@b.co";
  }

  /** An address without a '.' after the '@' is rejected. */
  lemma EmailWithoutDotExample()
    ensures !MatchesEmail("a@bco")
  {
    assert FirstLine("a@bco") == "a@bco";
  }

  /** Nothing after the '.' is rejected. */
  lemma EmailEndingInDotExample()
    ensures !MatchesEmail("a@b.")
  {
    assert FirstLine("a@b.") == "a@b.";
  }

  /** Nothing before the '@' is rejected. */
  lemma EmailWithoutLocalPartExample()
    ensures !MatchesEmail("@b.co")
  {
    assert FirstLine("@b.co") == "@b.co";
  }

  /** The missing-value text "nan" has no '@' and is rejected. */
  lemma NanEmailInvalid()
    ensures !MatchesEmailPattern("nan")
  {
    MatchesEmailCorrect("nan");
    assert FirstLine("nan") == "nan";
  }

  // ------------------------------------------------------ negative salaries

  /** `salary < 0`: false for a missing salary. */
  predicate NegativeSalary(e: Employee) {
    e.salary.Some? && e.salary.value.IsNegative()
  }

  function AbsSalary(e: Employee): Employee {
    match e.salary
    case None => e
    case Some(d) => e.(salary := Some(d.Abs()))
  }

  /** Step 11 on the whole table: the absolute value is taken only when some salary is negative. */
  function FixNegativeSalaries(rows: seq<Employee>): seq<Employee> {
    if CountWhere(rows, NegativeSalary) > 0 then MapRows(rows, AbsSalary) else rows
  }

  /** Step 11 in place; returns the number of negative salaries it found. */
  method FixNegativeSalariesIn(df: Frame<Employee>) returns (negatives: nat)
    modifies df
    ensures negatives == CountWhere(old(df.rows), NegativeSalary)
    ensures df.rows == FixNegativeSalaries(old(df.rows))
  {
    negatives := CountWhere(df.rows, NegativeSalary);
    if negatives > 0 {
      df.rows := MapRows(df.rows, AbsSalary);
    }
  }

  /**
   * Whether or not the column was rewritten, each row ends up with the
   * absolute value of its salary, nothing else changes, and no salary is
   * negative afterwards.
   */
  lemma FixNegativeSalariesMeaning(rows: seq<Employee>)
    ensures var r := FixNegativeSalaries(rows);
      |r| == |rows| &&
      (forall i :: 0 <= i < |rows| ==> r[i] == AbsSalary(rows[i])) &&
      (forall i :: 0 <= i < |rows| ==> !NegativeSalary(r[i]))
  {
    if CountWhere(rows, NegativeSalary) == 0 {
      forall i | 0 <= i < |rows| ensures AbsSalary(rows[i]) == rows[i] {
        assert !NegativeSalary(rows[i]);
      }
    }
  }

  /** Only the salary changes, and only its sign: a present salary keeps its magnitude, a missing one stays missing. */
  lemma AbsSalaryMeaning(e: Employee)
    ensures AbsSalary(e).(salary := e.salary) == e
    ensures !NegativeSalary(e) ==> AbsSalary(e) == e
    ensures e.salary.None? ==> AbsSalary(e).salary.None?
    ensures e.salary.Some? ==>
      (AbsSalary(e).salary.Some? &&
       AbsSalary(e).salary.value.scale == e.salary.value.scale &&
       (AbsSalary(e).salary.value.units == e.salary.value.units ||
        AbsSalary(e).salary.value.units == -e.salary.value.units) &&
       AbsSalary(e).salary.value.units >= 0)
  {
  }

  /** Running the step a second time finds nothing and changes nothing. */
  lemma FixNegativeSalariesIdempotent(rows: seq<Employee>)
    ensures CountWhere(FixNegativeSalaries(rows), NegativeSalary) == 0
    ensures FixNegativeSalaries(FixNegativeSalaries(rows)) == FixNegativeSalaries(rows)
  {
    FixNegativeSalariesMeaning(rows);
  }

  // ------------------------------------------------------------ exit dates

  /** `exit_date < hire_date`: false when either date is missing. */
  predicate InvalidDates(e: Employee) {
    e.exitDate.Some? && e.hireDate.Some? && e.exitDate.value < e.hireDate.value
  }

  function ClearInvalidExit(e: Employee): Employee {
    if InvalidDates(e) then e.(exitDate := None) else e
  }

  /** Step 12 on the whole table: offending exit dates are cleared only when there is at least one. */
  function ValidateDates(rows: seq<Employee>): seq<Employee> {
    if CountWhere(rows, InvalidDates) > 0 then MapRows(rows, ClearInvalidExit) else rows
  }

  /** Step 12 in place; returns the number of rows whose exit date precedes the hire date. */
  method ValidateDatesIn(df: Frame<Employee>) returns (invalid: nat)
    modifies df
    ensures invalid == CountWhere(old(df.rows), InvalidDates)
    ensures df.rows == ValidateDates(old(df.rows))
  {
    invalid := CountWhere(df.rows, InvalidDates);
    if invalid > 0 {
      df.rows := MapRows(df.rows, ClearInvalidExit);
    }
  }

  /**
   * Every row with an exit date before its hire date loses the exit date,
   * every other row is kept as it is, and no offending row remains.
   */
  lemma ValidateDatesMeaning(rows: seq<Employee>)
    ensures var r := ValidateDates(rows);
      |r| == |rows| &&
      (forall i :: 0 <= i < |rows| ==> r[i] == ClearInvalidExit(rows[i])) &&
      (forall i :: 0 <= i < |rows| ==> !InvalidDates(r[i]))
  {
    if CountWhere(rows, InvalidDates) == 0 {
      forall i | 0 <= i < |rows| ensures ClearInvalidExit(rows[i]) == rows[i] {
        assert !InvalidDates(rows[i]);
      }
    }
  }

  /** Clearing touches the exit date only, and only of an offending row. */
  lemma ClearInvalidExitMeaning(e: Employee)
    ensures ClearInvalidExit(e).(exitDate := e.exitDate) == e
    ensures ClearInvalidExit(e).exitDate == (if InvalidDates(e) then None else e.exitDate)
    ensures var c := ClearInvalidExit(e);
      c.exitDate.Some? && c.hireDate.Some? ==> c.hireDate.value <= c.exitDate.value
  {
  }

  lemma ValidateDatesIdempotent(rows: seq<Employee>)
    ensures CountWhere(ValidateDates(rows), InvalidDates) == 0
    ensures ValidateDates(ValidateDates(rows)) == ValidateDates(rows)
  {
    ValidateDatesMeaning(rows);
  }
}
