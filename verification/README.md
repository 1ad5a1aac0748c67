# Employee data cleaning pipeline, modelled in Dafny

The model covers the employee-data cleaning pipeline in
`notebooks/data/cleaned/scripts/data_cleaning.py`: the steps that `main` runs on the
employee table between loading and exporting it, in this order:

- step 3, `clean_strings`: every object column is converted to text and
  stripped; first name, last name and city are title-cased; email is lower-cased.
- step 4, `convert_data_types`:
  - salary text loses its thousands separators and is parsed as a number;
  - manager id is parsed as a number;
  - the two dates are parsed by a date parser that the model takes as a parameter.
- steps 5 to 9: the gender, department, currency, country and state
  standardisers. Each is a fixed replacement table; department is also stripped first.
- step 10: the email flag, which applies the regular expression `.+@.+\..+` at the
  start of the text.
- step 11: negative salaries are replaced by their absolute value.
- step 12: an exit date earlier than the hire date is cleared.
- step 14: rows that repeat an earlier `employee_id` are dropped, keeping the first.

It also covers the standalone script `scripts/clean_employee_data.py`. That script
replaces department and currency spellings with smaller tables, without trimming.

## How the model is built

- The table is a `Frame` object holding a sequence of rows. The steps that
  overwrite columns of the caller's DataFrame are methods that `modify` the frame.
- Each such method is specified by a pure per-row or per-table function. The
  properties of the steps are lemmas about those functions.
- Before step 4 a row is a `RawRow`: every column except the integer
  `employee_id` is text or missing. From step 4 on a row is an `Employee`.
- A missing cell is `None`. `astype(str)` turns it into the text `"nan"`.
- A number is kept exactly as a `Decimal`, meaning `units / 10^scale`.
- A date is a day number.
- `main` is the method `Pipeline.CleanEmployeeData`. It runs the steps in the
  source's order. Step 3 works on a frame of raw rows. Step 4 changes the
  column types, so it builds a second frame of typed rows, and steps 5 to 14
  work on that one. The method returns the counts that the steps print.

## Model

| member | source | states |
|---|---|---|
| Text.Strip | notebooks/data/cleaned/scripts/data_cleaning.py:123 | `str.strip()`: the result has no leading or trailing whitespace (Python's `isspace` set) |
| Text.StripIsMiddle | notebooks/data/cleaned/scripts/data_cleaning.py:123 | the result is a slice of the input, and only whitespace was removed before and after it |
| Text.StripIdempotent | notebooks/data/cleaned/scripts/data_cleaning.py:123 | stripping twice is the same as stripping once |
| Text.TitleIsTitleCased | notebooks/data/cleaned/scripts/data_cleaning.py:126-133 | `str.title()`: a letter is upper case exactly when the character before it is not a letter |
| Text.TitleIdempotent | notebooks/data/cleaned/scripts/data_cleaning.py:126-133 | title-casing twice is the same as once |
| Text.TitleKeepsStripped | notebooks/data/cleaned/scripts/data_cleaning.py:126-133 | title-casing keeps a stripped value stripped |
| Text.LowerIsLowercase | notebooks/data/cleaned/scripts/data_cleaning.py:130 | `str.lower()`: each upper-case letter becomes its own lower case, no upper-case letter is left, the length is kept, and every other character is unchanged |
| Text.LowerIdempotent | notebooks/data/cleaned/scripts/data_cleaning.py:130 | lower-casing twice is the same as once |
| Text.AsText | notebooks/data/cleaned/scripts/data_cleaning.py:123 | `astype(str)`: a missing cell becomes the text "nan". `StringCleaning.CleanRowMissing` states its effect |
| Text.Title | notebooks/data/cleaned/scripts/data_cleaning.py:126-133 | `str.title()` on ASCII letters. `TitleAt` states what it yields, letter by letter; `TitleIsTitleCased` and `TitleIdempotent` state properties of the result |
| Text.TitleAt | notebooks/data/cleaned/scripts/data_cleaning.py:126-133 | the length is kept, and each letter of the result is its input letter upper-cased when the input character before it is not a letter and lower-cased otherwise; any other character is unchanged |
| Text.Lower | notebooks/data/cleaned/scripts/data_cleaning.py:130 | `str.lower()` on ASCII letters. `LowerIsLowercase` and `LowerIdempotent` state what it yields |
| Text.RemoveAll | notebooks/data/cleaned/scripts/data_cleaning.py:166 | `str.replace(',', '')`. `RemoveAllRemoves` and `TypeConversion.SeparatorRemoved` state what it yields |
| Text.RemoveAllRemoves | notebooks/data/cleaned/scripts/data_cleaning.py:166 | `str.replace(',', '')` leaves no comma, and leaves text without a comma as it was |
| Numeric.ParseNumber | notebooks/data/cleaned/scripts/data_cleaning.py:167 | `pd.to_numeric(errors='coerce')` on text: an optional sign, digits and at most one point give the exact number; anything else gives a missing value. `ParsePointed` and `ParseWhole` state the first part; `ParseNumberOnlyDecimals` and `RejectsForeignChar` state the second |
| Numeric.ParseNumberOnlyDecimals | notebooks/data/cleaned/scripts/data_cleaning.py:167 | a text that parses is, after its sign, digits or digits-point-digits with at least one digit, and its value is the one that notation denotes; every other text, including malformed ones built from digits, signs and points, is missing |
| Numeric.MalformedNumbersExample | notebooks/data/cleaned/scripts/data_cleaning.py:167 | "1.2.3", "+-1", "5-", "." and "-" are missing values |
| Numeric.ParsePointed | notebooks/data/cleaned/scripts/data_cleaning.py:167 | a signed `digits.digits` text parses to the number it denotes, with its sign |
| Numeric.ParseWhole | notebooks/data/cleaned/scripts/data_cleaning.py:167 | a signed integer text parses to its integer value |
| Numeric.RejectsForeignChar | notebooks/data/cleaned/scripts/data_cleaning.py:167 | text holding a character other than a digit, a sign or a point becomes missing (`errors='coerce'`) |
| Records.CountWhere | notebooks/data/cleaned/scripts/data_cleaning.py:455-459 | the count of flagged rows is at most the row count, and is zero exactly when no row is flagged |
| Records.CountWhereMap | notebooks/data/cleaned/scripts/data_cleaning.py:420-493 | a count taken after a per-row rewrite equals a count taken before it, when the rewrite does not change what is counted |
| StringCleaning.TrimCell | notebooks/data/cleaned/scripts/data_cleaning.py:123 | `astype(str).str.strip()` on one cell |
| StringCleaning.CaseRule | notebooks/data/cleaned/scripts/data_cleaning.py:126-133 | the case conversion of each column: title case for first name, last name and city, lower case for email, none for the others. `CaseRuleStable` states that it keeps a trimmed value trimmed and is idempotent |
| StringCleaning.CleanCell | notebooks/data/cleaned/scripts/data_cleaning.py:119-133 | one cell as step 3 leaves it: the column's case rule applied to the trimmed text. `CleanCellStripped` and `CleanCellCases` state what it yields |
| StringCleaning.CleanRow | notebooks/data/cleaned/scripts/data_cleaning.py:119-133 | one row as step 3 leaves it. `CleanStrings` is proved to compute it; `CleanRowStripped`, `CleanRowCases`, `CleanRowOnlyTrims` and `CleanRowIdempotent` state what it yields |
| StringCleaning.CaseRuleStable | notebooks/data/cleaned/scripts/data_cleaning.py:126-133 | a case rule keeps a trimmed value trimmed, and applying it again changes nothing |
| StringCleaning.CleanCellStripped | notebooks/data/cleaned/scripts/data_cleaning.py:119-133 | a cleaned cell is present and has no surrounding whitespace |
| StringCleaning.CleanCellCases | notebooks/data/cleaned/scripts/data_cleaning.py:126-133 | a cleaned email cell is lower case; cleaned name and city cells are title case |
| StringCleaning.CleanCellIdempotent | notebooks/data/cleaned/scripts/data_cleaning.py:119-133 | cleaning a cleaned cell again changes nothing |
| StringCleaning.CleanStrings | notebooks/data/cleaned/scripts/data_cleaning.py:100-140 | the loop over the object columns followed by the four case conversions leaves every row as `CleanRow` of the original row |
| StringCleaning.EveryColumnIsObject | notebooks/data/cleaned/scripts/data_cleaning.py:119 | every column except `employee_id` is among the object columns the loop visits |
| StringCleaning.ApplyToColumnsGet | notebooks/data/cleaned/scripts/data_cleaning.py:122-123 | after the loop has visited some columns, each visited column holds the trim rule applied to its original value, and the other columns and the id are untouched |
| StringCleaning.ApplyToObjectColumns | notebooks/data/cleaned/scripts/data_cleaning.py:119-123 | the column-by-column loop equals trimming every column of the row at once |
| StringCleaning.CaseColumnsOfTrimmed | notebooks/data/cleaned/scripts/data_cleaning.py:126-133 | trimming followed by the four case conversions is, cell by cell, the column's case rule applied to the trimmed text |
| StringCleaning.CleanRowCell | notebooks/data/cleaned/scripts/data_cleaning.py:119-133 | each cleaned cell depends only on the same raw cell, and the id is kept |
| StringCleaning.CleanRowStripped | notebooks/data/cleaned/scripts/data_cleaning.py:119-133 | after `clean_strings` every cell is present and has no surrounding whitespace |
| StringCleaning.CleanRowMissing | notebooks/data/cleaned/scripts/data_cleaning.py:123 | a missing cell becomes the text "nan", under its column's case rule |
| StringCleaning.MissingNameBecomesNan | notebooks/data/cleaned/scripts/data_cleaning.py:123-126 | a missing first name comes out as "Nan" |
| StringCleaning.CleanRowCases | notebooks/data/cleaned/scripts/data_cleaning.py:126-133 | email is lower case; first name, last name and city are title case |
| StringCleaning.CleanRowOnlyTrims | notebooks/data/cleaned/scripts/data_cleaning.py:122-133 | every other column is only converted to text and stripped |
| StringCleaning.CleanRowIdempotent | notebooks/data/cleaned/scripts/data_cleaning.py:119-133 | running `clean_strings` on its own output changes nothing |
| TypeConversion.SalaryText | notebooks/data/cleaned/scripts/data_cleaning.py:166 | the salary text handed to the parser has no comma and no surrounding whitespace |
| TypeConversion.ConvertDataTypes | notebooks/data/cleaned/scripts/data_cleaning.py:147-181 | no row is added or lost; the id and the text columns pass through; the email flag is not yet set; the salary is the parse of the cleaned salary text |
| TypeConversion.ConversionCounts | notebooks/data/cleaned/scripts/data_cleaning.py:168-179 | each reported count of missing values is at most the row count |
| TypeConversion.SeparatorRemoved | notebooks/data/cleaned/scripts/data_cleaning.py:166 | removing commas from `sign head,tail.frac` joins the digit groups and changes nothing else |
| TypeConversion.SeparatedSalaryParses | notebooks/data/cleaned/scripts/data_cleaning.py:166-167 | a salary with a decimal point and any number of thousands separators, such as "-4,500.00" or "1,234,567.00", parses to the number it denotes, sign included |
| TypeConversion.SeparatedWholeSalaryParses | notebooks/data/cleaned/scripts/data_cleaning.py:166-167 | a salary without a decimal point and with any number of thousands separators, such as "4,500", parses to the integer it denotes, sign included |
| TypeConversion.MissingSalaryStaysMissing | notebooks/data/cleaned/scripts/data_cleaning.py:166-167 | a missing salary reads "nan", which does not parse, so it stays missing |
| TypeConversion.UnparseableSalaryIsMissing | notebooks/data/cleaned/scripts/data_cleaning.py:167 | salary text holding a character that is not part of a number becomes missing, not an error |
| TypeConversion.ParseCell | notebooks/data/cleaned/scripts/data_cleaning.py:171 | `pd.to_numeric(errors='coerce')` on manager id: a missing cell or text that is not a number gives a missing value. `Numeric.ParsePointed` and `Numeric.RejectsForeignChar` state what it parses |
| TypeConversion.ParseDateCell | notebooks/data/cleaned/scripts/data_cleaning.py:175-176 | `pd.to_datetime(errors='coerce')` on a date cell: a missing cell, the empty text and the spellings of NaN and NaT give a missing date; other text goes to the date parser |
| TypeConversion.ConvertRow | notebooks/data/cleaned/scripts/data_cleaning.py:166-176 | one row after step 4. `ConvertDataTypes` and `SeparatedSalaryParses` state what it yields |
| TypeConversion.MissingDateStaysMissing | notebooks/data/cleaned/scripts/data_cleaning.py:175-176 | a hire or exit date missing in the raw sheet is still missing after steps 3 and 4, whatever the date parser does with other text |
| TypeConversion.CommaBlocksParsing | notebooks/data/cleaned/scripts/data_cleaning.py:166-167 | text that still holds a comma would not parse, so the comma removal is needed |
| Categories.Lookup | notebooks/data/cleaned/scripts/data_cleaning.py:214 | exact-match lookup: a key gives its value, anything else gives itself. `LookupCanonicalOrUnmapped` states what it yields |
| Categories.Replace | notebooks/data/cleaned/scripts/data_cleaning.py:214 | `Series.replace(table)` on one cell: a missing cell stays missing. `ReplaceStandardizes` and `ReplaceIdempotent` state what it yields |
| Categories.StripReplace | notebooks/data/cleaned/scripts/data_cleaning.py:262-267 | `astype(str).str.strip().replace(table)` on one department cell. `StripReplaceStandardizes` and `StripReplaceIdempotent` state what it yields |
| Categories.ReplaceColumn | notebooks/data/cleaned/scripts/data_cleaning.py:214 | one standardiser on one row. `Pipeline.ReplaceColumnStandardizes` states that only its column changes |
| Categories.DepartmentRow | notebooks/data/cleaned/scripts/data_cleaning.py:262-267 | the department step on one row. `Pipeline.DepartmentRowKeepsClean` states that only the department changes |
| Categories.GenderTableWellFormed | notebooks/data/cleaned/scripts/data_cleaning.py:206-212 | every gender key maps to Male, Female or Other; each of those maps to itself; the values are exactly those three |
| Categories.DepartmentTableWellFormed | notebooks/data/cleaned/scripts/data_cleaning.py:244-260 | every department key maps to one of the six canonical departments; each canonical name maps to itself |
| Categories.CurrencyTableWellFormed | notebooks/data/cleaned/scripts/data_cleaning.py:297-305 | every currency key, "Â£" included, maps to ZAR, USD or GBP; each of those maps to itself |
| Categories.CountryTableWellFormed | notebooks/data/cleaned/scripts/data_cleaning.py:337-347 | every country key maps to South Africa, United Kingdom or United States; each of those maps to itself |
| Categories.StateTableWellFormed | notebooks/data/cleaned/scripts/data_cleaning.py:379-385 | every state key maps to one of the four province names; each of those maps to itself |
| Categories.StandardTablesStripped | notebooks/data/cleaned/scripts/data_cleaning.py:206-385 | no value in any of the five tables has surrounding whitespace |
| Categories.LookupCanonicalOrUnmapped | notebooks/data/cleaned/scripts/data_cleaning.py:214 | a replaced value is one of the table's values, or the input itself when the input is not a key |
| Categories.ReplaceStandardizes | notebooks/data/cleaned/scripts/data_cleaning.py:214 | after `Series.replace` a present value is canonical or is an unmapped value left as it was; a missing cell stays missing |
| Categories.ReplaceIdempotent | notebooks/data/cleaned/scripts/data_cleaning.py:214 | with a canonical table, replacing twice is the same as once |
| Categories.LookupKeepsStripped | notebooks/data/cleaned/scripts/data_cleaning.py:214 | a lookup keeps a stripped value stripped when the table's values are stripped |
| Categories.StripReplaceStandardizes | notebooks/data/cleaned/scripts/data_cleaning.py:262-267 | the department result is a canonical department, or the stripped text when that text is not a key |
| Categories.StripReplaceIdempotent | notebooks/data/cleaned/scripts/data_cleaning.py:262-267 | the department result is present and stripped, and running the step again changes nothing |
| Categories.StandardizeGender | notebooks/data/cleaned/scripts/data_cleaning.py:188-219 | the gender column of every row is replaced through the gender table; nothing else changes |
| Categories.StandardizeDepartment | notebooks/data/cleaned/scripts/data_cleaning.py:226-272 | the department column of every row is converted to text, stripped and replaced through the department table |
| Categories.StandardizeCurrency | notebooks/data/cleaned/scripts/data_cleaning.py:279-312 | the currency column of every row is replaced through the currency table |
| Categories.StandardizeCountry | notebooks/data/cleaned/scripts/data_cleaning.py:319-354 | the country column of every row is replaced through the country table |
| Categories.StandardizeState | notebooks/data/cleaned/scripts/data_cleaning.py:361-392 | the state column of every row is replaced through the state table |
| Categories.DepartmentAbbreviationExample | notebooks/data/cleaned/scripts/data_cleaning.py:244-266 | "H.R" and "H.R." both become "Human Resource" |
| Categories.DepartmentMissingExample | notebooks/data/cleaned/scripts/data_cleaning.py:262-266 | a missing department becomes the text "nan", which is no key |
| Categories.DepartmentPaddedExample | notebooks/data/cleaned/scripts/data_cleaning.py:262-266 | " HR " is stripped before the lookup and becomes "Human Resource" |
| Validation.MatchesEmail | notebooks/data/cleaned/scripts/data_cleaning.py:418-420 | a matcher for `.+@.+\..+` under `re.match`. `MatchesEmailCorrect` states that it accepts exactly what the pattern matches |
| Validation.EmailFlag | notebooks/data/cleaned/scripts/data_cleaning.py:420 | `str.match(pattern, na=False)` on one cell: a missing email gives false |
| Validation.FlagEmail | notebooks/data/cleaned/scripts/data_cleaning.py:420 | adds the flag to one row. `FlagEmailMeaning` states what it yields |
| Validation.MatchesEmailSound | notebooks/data/cleaned/scripts/data_cleaning.py:418-420 | text the matcher accepts matches the pattern |
| Validation.MatchesEmailComplete | notebooks/data/cleaned/scripts/data_cleaning.py:418-420 | text that matches the pattern is accepted by the matcher |
| Validation.MatchesEmailCorrect | notebooks/data/cleaned/scripts/data_cleaning.py:418-420 | the matcher accepts exactly the texts that `re.match` matches with `.+@.+\..+`: something before the '@', something between it and a '.', something after the '.', and no line feed in the matched part |
| Validation.FlagEmailMeaning | notebooks/data/cleaned/scripts/data_cleaning.py:420 | every row gets a flag; it is true exactly when the email is present and matches the pattern; nothing else in the row changes |
| Validation.ValidateEmails | notebooks/data/cleaned/scripts/data_cleaning.py:399-430 | every row is flagged and none is dropped; the returned count is the number of rows flagged invalid |
| Validation.EmailAcceptedExample | notebooks/data/cleaned/scripts/data_cleaning.py:420 | "a@b.co" is valid |
| Validation.EmailWithoutDotExample | notebooks/data/cleaned/scripts/data_cleaning.py:420 | "a@bco" is invalid |
| Validation.EmailEndingInDotExample | notebooks/data/cleaned/scripts/data_cleaning.py:420 | "a@b." is invalid |
| Validation.EmailWithoutLocalPartExample | notebooks/data/cleaned/scripts/data_cleaning.py:420 | "@b.co" is invalid |
| Validation.NanEmailInvalid | notebooks/data/cleaned/scripts/data_cleaning.py:420 | the text "nan" left by a missing email does not match |
| Validation.NegativeSalary | notebooks/data/cleaned/scripts/data_cleaning.py:455 | `salary < 0`, which is false for a missing salary |
| Validation.AbsSalary | notebooks/data/cleaned/scripts/data_cleaning.py:464 | `abs()` on one row's salary. `AbsSalaryMeaning` states what it yields |
| Validation.FixNegativeSalaries | notebooks/data/cleaned/scripts/data_cleaning.py:455-464 | step 11 on the table. `FixNegativeSalariesMeaning` and `FixNegativeSalariesIdempotent` state what it yields |
| Validation.FixNegativeSalariesIn | notebooks/data/cleaned/scripts/data_cleaning.py:455-464 | the returned count is the number of negative salaries before the fix; the salary column is rewritten only when that count is positive |
| Validation.FixNegativeSalariesMeaning | notebooks/data/cleaned/scripts/data_cleaning.py:455-464 | whichever branch is taken, each row ends with the absolute value of its salary, and no salary is negative |
| Validation.AbsSalaryMeaning | notebooks/data/cleaned/scripts/data_cleaning.py:464 | only the salary changes; a missing salary stays missing; a present one keeps its magnitude and becomes non-negative; a non-negative one is unchanged |
| Validation.FixNegativeSalariesIdempotent | notebooks/data/cleaned/scripts/data_cleaning.py:455-464 | a second run finds no negative salary and changes nothing |
| Validation.InvalidDates | notebooks/data/cleaned/scripts/data_cleaning.py:493 | `exit_date < hire_date`, which is false when either date is missing |
| Validation.ClearInvalidExit | notebooks/data/cleaned/scripts/data_cleaning.py:502 | clears one row's exit date when it precedes the hire date. `ClearInvalidExitMeaning` states what it yields |
| Validation.ValidateDates | notebooks/data/cleaned/scripts/data_cleaning.py:493-502 | step 12 on the table. `ValidateDatesMeaning` and `ValidateDatesIdempotent` state what it yields |
| Validation.ValidateDatesIn | notebooks/data/cleaned/scripts/data_cleaning.py:493-502 | the returned count is the number of rows whose exit date precedes the hire date; exit dates are cleared only when that count is positive |
| Validation.ValidateDatesMeaning | notebooks/data/cleaned/scripts/data_cleaning.py:493-502 | every row is kept; only offending rows lose their exit date; no offending row remains |
| Validation.ClearInvalidExitMeaning | notebooks/data/cleaned/scripts/data_cleaning.py:502 | only the exit date changes, and it becomes missing exactly when both dates are present and exit < hire; the dates are never swapped |
| Validation.ValidateDatesIdempotent | notebooks/data/cleaned/scripts/data_cleaning.py:493-502 | a second run finds no offending row and changes nothing |
| Dedup.IsRepeat | notebooks/data/cleaned/scripts/data_cleaning.py:559 | `duplicated()` flags a row when an earlier row has the same id |
| Dedup.KeepFirst | notebooks/data/cleaned/scripts/data_cleaning.py:569 | `drop_duplicates(subset=['employee_id'], keep='first')`. `KeepFirstIds`, `KeepFirstUnique`, `KeepFirstLength` and `KeepFirstKeepsFirst` state what it yields |
| Dedup.RemoveDuplicates | notebooks/data/cleaned/scripts/data_cleaning.py:559-572 | step 14 on the table. `RemoveDuplicatesMeaning` states what it yields |
| Dedup.DuplicatedCount | notebooks/data/cleaned/scripts/data_cleaning.py:559 | `duplicated().sum()` is at most the row count |
| Dedup.FirstIndex | notebooks/data/cleaned/scripts/data_cleaning.py:569 | the first row carrying an id: it carries the id, and no earlier row does |
| Dedup.FirstIndexUnique | notebooks/data/cleaned/scripts/data_cleaning.py:569 | a row carrying an id with no earlier row carrying it is that id's first row |
| Dedup.RemoveDuplicatesIn | notebooks/data/cleaned/scripts/data_cleaning.py:559-569 | the returned count is `duplicated().sum()`; rows are dropped only when it is positive |
| Dedup.KeepFirstIds | notebooks/data/cleaned/scripts/data_cleaning.py:569 | `drop_duplicates(keep='first')` keeps every id |
| Dedup.KeepFirstUnique | notebooks/data/cleaned/scripts/data_cleaning.py:569 | no id occurs twice in the result |
| Dedup.KeepFirstLength | notebooks/data/cleaned/scripts/data_cleaning.py:559-569 | the number of rows removed equals the number of rows `duplicated()` flags |
| Dedup.KeepFirstKeepsFirst | notebooks/data/cleaned/scripts/data_cleaning.py:569 | each kept row is the first row of the input with its id, and kept rows stay in input order |
| Dedup.KeepFirstNoRepeats | notebooks/data/cleaned/scripts/data_cleaning.py:569 | with no repeated id nothing is dropped |
| Dedup.RemoveDuplicatesIsKeepFirst | notebooks/data/cleaned/scripts/data_cleaning.py:561-569 | skipping the drop when nothing repeats gives the same table as dropping |
| Dedup.DuplicatedCountZero | notebooks/data/cleaned/scripts/data_cleaning.py:559-561 | the duplicate count is zero exactly when the ids are pairwise distinct |
| Dedup.RemoveDuplicatesMeaning | notebooks/data/cleaned/scripts/data_cleaning.py:559-572 | the result has distinct ids, the same id set, is shorter by the duplicate count, and has no duplicates left |
| Pipeline.CleanRowTextsClean | notebooks/data/cleaned/scripts/data_cleaning.py:119-133 | after step 3 every text column is present and stripped |
| Pipeline.ReplaceColumnKeepsClean | notebooks/data/cleaned/scripts/data_cleaning.py:214 | a standardiser whose table values are stripped keeps the text columns clean and touches nothing else |
| Pipeline.DepartmentRowKeepsClean | notebooks/data/cleaned/scripts/data_cleaning.py:262-267 | the department step keeps the text columns clean and touches nothing else |
| Pipeline.StandardizeRowKeepsClean | notebooks/data/cleaned/scripts/data_cleaning.py:696-708 | steps 5 to 9 keep every text column present and stripped, and change no other column |
| Pipeline.StandardizeRow | notebooks/data/cleaned/scripts/data_cleaning.py:696-708 | steps 5 to 9 on one row, in order. `StandardizeRowKeepsClean` and `StandardizeRowStandard` state what it yields |
| Pipeline.StandardTableValues | notebooks/data/cleaned/scripts/data_cleaning.py:206-385 | the values of each of the five tables are exactly its canonical set |
| Pipeline.ReplaceColumnStandardizes | notebooks/data/cleaned/scripts/data_cleaning.py:214 | one standardiser leaves its column a canonical value or a value with no entry, and every other column as it was |
| Pipeline.StandardizeRowStandard | notebooks/data/cleaned/scripts/data_cleaning.py:696-708 | after steps 5 to 9 each category column holds a canonical value of its table or a value that table has no entry for |
| Pipeline.StandardizeCategories | notebooks/data/cleaned/scripts/data_cleaning.py:696-708 | steps 5 to 9 in order leave each row as the five standardisers composed |
| Pipeline.NegativeSalaryFixed | notebooks/data/cleaned/scripts/data_cleaning.py:455-464 | minus a positive salary is counted as negative, and steps 10 to 12 leave its magnitude |
| Pipeline.NegativeSeparatedSalaryFixed | notebooks/data/cleaned/scripts/data_cleaning.py:166-167 | "-4,500.00" and the like become a negative number that step 11 counts and turns into its magnitude |
| Pipeline.ValidateRow | notebooks/data/cleaned/scripts/data_cleaning.py:711-717 | steps 10 to 12 on one row: flag the email, take the salary's absolute value, clear an exit date before the hire date. `ValidateRowClean` and `ValidateAll` state what it yields |
| Pipeline.ValidateRowClean | notebooks/data/cleaned/scripts/data_cleaning.py:711-717 | after steps 10 to 12 a row with clean text and standardised categories has an email flag, no negative salary and no exit date before its hire date |
| Pipeline.ValidateAll | notebooks/data/cleaned/scripts/data_cleaning.py:711-717 | steps 10 to 12 in order leave each row as the three per-row rules composed, whichever branches the salary and date steps take. The three counts are the invalid emails, the negative salaries and the exit dates before hire dates, each counted over the rows as they came in |
| Pipeline.SameIds | notebooks/data/cleaned/scripts/data_cleaning.py:693 | rows that keep their ids one by one have the raw table's id set |
| Pipeline.KeepFirstRows | notebooks/data/cleaned/scripts/data_cleaning.py:569 | a property of every input row holds for every row `drop_duplicates` keeps |
| Pipeline.TypedRowsClean | notebooks/data/cleaned/scripts/data_cleaning.py:690-693 | after steps 3 and 4 every text column is present and stripped, and each row keeps its id |
| Pipeline.TypedRows | notebooks/data/cleaned/scripts/data_cleaning.py:690-693 | the table after steps 3 and 4. `TypedRowsClean` states what it yields |
| Pipeline.StandardizedRows | notebooks/data/cleaned/scripts/data_cleaning.py:690-708 | the table after steps 3 to 9 |
| Pipeline.ValidatedRows | notebooks/data/cleaned/scripts/data_cleaning.py:690-717 | the table after steps 3 to 12. `ValidatedRowsClean` states what it yields |
| Pipeline.ValidatedRowsClean | notebooks/data/cleaned/scripts/data_cleaning.py:690-717 | every row after steps 3 to 12 has clean text, standardised categories, an email flag, no negative salary and no exit date before its hire date, and keeps its raw row's id |
| Pipeline.CleanEmployeeData | notebooks/data/cleaned/scripts/data_cleaning.py:654-723 | the returned table is step 14 applied to steps 3 to 12 in order. The report holds the conversion counts and each step's count over its own input. Every returned row has clean text, standardised categories, an email flag, no negative salary and no exit date before its hire date. Ids are pairwise distinct and are exactly the input's ids. The reported duplicate count is the number of rows removed |
| ScriptReplacements.ScriptRow | scripts/clean_employee_data.py:23-41 | the script's two replacements on one row. `ScriptRowMeaning` and `ScriptRowIdempotent` state what it yields |
| ScriptReplacements.ScriptClean | scripts/clean_employee_data.py:23-46 | both replacements are applied to every row; the row count is unchanged and returned |
| ScriptReplacements.ScriptRowMeaning | scripts/clean_employee_data.py:23-41 | only department and currency change; a key becomes the canonical value the main pipeline also gives it; any other value, and a missing cell, is unchanged |
| ScriptReplacements.ScriptDepartmentTableWellFormed | scripts/clean_employee_data.py:23-32 | every value of the script's department table is a canonical department and is no key |
| ScriptReplacements.ScriptCurrencyTableWellFormed | scripts/clean_employee_data.py:34-41 | every value of the script's currency table is ZAR, USD or GBP, and maps to itself or is no key |
| ScriptReplacements.ScriptRowIdempotent | scripts/clean_employee_data.py:23-41 | applying both replacements twice is the same as once |
| ScriptReplacements.ScriptDepartmentAgrees | scripts/clean_employee_data.py:23-32 | every department entry of the script is also in the main pipeline's table, with the same value |
| ScriptReplacements.ScriptCurrencyAgrees | scripts/clean_employee_data.py:34-41 | every currency entry of the script is also in the main pipeline's table, with the same value |
| ScriptReplacements.ScriptKeepsDottedHR | scripts/clean_employee_data.py:23-32 | "H.R." passes through the script unchanged but becomes "Human Resource" in the main pipeline |
| ScriptReplacements.ScriptKeepsPaddedHR | scripts/clean_employee_data.py:23-32 | without trimming, " HR" is no key and passes through |
| ScriptReplacements.ScriptKeepsGBP | scripts/clean_employee_data.py:34-41 | "GBP" has no entry in the script's currency table and passes through |

## Points where the code is easy to misread

- Manager id is parsed with `pd.to_numeric`, which accepts decimals as well as
  integers (`data_cleaning.py:171`). The model parses it with the same number
  parser as salary.
- Only the department step strips its column before the lookup
  (`data_cleaning.py:262-266`). The other four standardisers look a value up
  exactly as step 3 left it, which is already stripped.
- `remove_duplicates` reports and tests `duplicated().sum()`
  (`data_cleaning.py:559-561`). That is the number of rows repeating an earlier
  id: two rows sharing an id count as 1. The model returns that count. The
  number of rows involved in duplication (`keep=False`, 2 in that case) is only
  printed inside the branch.

## Left out

- Loading and exporting are not modelled: `load_data` with its unsupported-extension
  error, `export_cleaned_data` (directory creation, CSV write, dropping `email_valid`),
  and the Excel/CSV reads and writes of `scripts/clean_employee_data.py`. They are
  file I/O.
- `explore_data`, `analyze_missing_values`, `generate_quality_report` and every
  `print` are console output. The counts the steps print are returned instead;
  the sample rows and the `value_counts` tables are not.
- The `keep=False` duplicate count printed inside `remove_duplicates` is console
  output only and is not returned.
- `main`'s `try`/`except` only prints and re-raises. The steps modelled cannot fail,
  so it is not modelled.
- `pd.to_datetime(format='mixed', dayfirst=True)`: the date parser is a parameter
  of type `string -> Option<Day>`. Its formats and heuristics are not modelled.
  The model itself handles the texts pandas always reads as not a time: the
  empty text and the spellings of NaN and NaT.
- `pd.to_numeric` is modelled for plain decimal text only: an optional sign,
  digits and at most one point.
  - Not modelled: exponents, "inf" and the rounding of a float64 result.
  - Surrounding whitespace never reaches the parser: step 3 strips manager id
    and every other text column, and step 4 strips the salary text.
  - Numbers are kept exactly.
- `str.title()` and `str.lower()` are modelled for ASCII letters. Unicode case
  mapping, and Unicode letters counting as cased characters, are left out.
- `select_dtypes(include=['object'])` is modelled as every column except
  `employee_id`, which is the sheet's dtype layout. A differently typed input
  sheet would give a different column list.
- `employee_id` is modelled as an integer that is never missing. pandas would
  treat several missing ids as duplicates of each other.
- `notebooks/hr_kpis.py` is not part of this model. It only aggregates the
  cleaned table with library group-by and float division.
- Dedup.DuplicatedCount: its own contract is only a bound. What it counts is
  stated by `KeepFirstLength` and `DuplicatedCountZero`.
- The model has no in-place aliasing. Each step reassigns the frame's row
  sequence, so a step never sees a half-updated column.
