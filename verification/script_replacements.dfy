/**
 * The standalone script `clean_employee_data.py`: after copying the
 * spreadsheet to a raw CSV it replaces department and currency spellings
 * with smaller tables than the main pipeline's, without trimming or any
 * other cleaning, and writes the table back out.
 */
module ScriptReplacements {
  import opened Wrappers
  import opened Records
  import opened Categories

  const ScriptDepartmentMap: map<string, string> := map[
    "HR" := "Human Resource", "H.R" := "Human Resource",
    "Human Resources" := "Human Resource",
    "IT" := "Information Technology", "Ops" := "Operations",
    "Eng" := "Engineering", "FIN" := "Finance", "sales" := "Sales"]

  const ScriptCurrencyMap: map<string, string> := map[
    "R" := "ZAR", "ZAR" := "ZAR",
    "$" := "USD", "USD" := "USD",
    "£" := "GBP", "Â£" := "GBP"]

  /** The two replacements on one raw row; every other column is left alone. */
  function ScriptRow(r: RawRow): RawRow {
    r.(text := r.text.(
      department := Replace(ScriptDepartmentMap, r.text.department),
      currency := Replace(ScriptCurrencyMap, r.text.currency)))
  }

  /** Both replacements on the whole table; returns the row count the script prints. */
  method ScriptClean(df: Frame<RawRow>) returns (rowCount: nat)
    modifies df
    ensures |df.rows| == |old(df.rows)| && rowCount == |df.rows|
    ensures forall i :: 0 <= i < |df.rows| ==> df.rows[i] == ScriptRow(old(df.rows[i]))
  {
    df.rows := MapRows(df.rows, (r: RawRow) =>
      r.(text := r.text.(department := Replace(ScriptDepartmentMap, r.text.department))));
    df.rows := MapRows(df.rows, (r: RawRow) =>
      r.(text := r.text.(currency := Replace(ScriptCurrencyMap, r.text.currency))));
    rowCount := |df.rows|;
  }

  lemma ScriptDepartmentRange(k: string)
    requires k in ScriptDepartmentMap
    ensures ScriptDepartmentMap[k] in DepartmentValues
  {
  }

  /** Every department value the script produces is one of the pipeline's canonical departments, and none of them is a key. */
  lemma ScriptDepartmentTableWellFormed()
    ensures Canonical(ScriptDepartmentMap)
    ensures forall k | k in ScriptDepartmentMap :: ScriptDepartmentMap[k] in DepartmentValues
    ensures forall k | k in ScriptDepartmentMap :: ScriptDepartmentMap[k] !in ScriptDepartmentMap
  {
    forall k | k in ScriptDepartmentMap
      ensures ScriptDepartmentMap[k] in DepartmentValues && ScriptDepartmentMap[k] !in ScriptDepartmentMap
    {
      ScriptDepartmentRange(k);
    }
  }

  lemma ScriptCurrencyRange(k: string)
    requires k in ScriptCurrencyMap
    ensures ScriptCurrencyMap[k] in CurrencyValues
  {
  }

  /** Every currency value the script produces is a canonical code that maps to itself or is no key. */
  lemma ScriptCurrencyTableWellFormed()
    ensures Canonical(ScriptCurrencyMap)
    ensures forall k | k in ScriptCurrencyMap :: ScriptCurrencyMap[k] in CurrencyValues
  {
    assert ScriptCurrencyMap["ZAR"] == "ZAR" && ScriptCurrencyMap["USD"] == "USD";
    forall k | k in ScriptCurrencyMap
      ensures ScriptCurrencyMap[k] in CurrencyValues
      ensures ScriptCurrencyMap[k] !in ScriptCurrencyMap || ScriptCurrencyMap[ScriptCurrencyMap[k]] == ScriptCurrencyMap[k]
    {
      ScriptCurrencyRange(k);
    }
  }

  /**
   * The script changes department and currency only. A value with an entry
   * becomes the canonical name the main pipeline also gives it; any other
   * value, and a missing cell, is left as it is.
   */
  lemma ScriptRowMeaning(r: RawRow)
    ensures ScriptRow(r).employeeId == r.employeeId
    ensures forall c :: c != Text(Department) && c != Text(Currency) ==> Get(ScriptRow(r), c) == Get(r, c)
    ensures var d, d' := r.text.department, ScriptRow(r).text.department;
      (d.Some? && d.value in ScriptDepartmentMap ==> d'.Some? && d'.value in DepartmentValues && d'.value == DepartmentMap[d.value]) &&
      (d.None? || d.value !in ScriptDepartmentMap ==> d' == d)
    ensures var m, m' := r.text.currency, ScriptRow(r).text.currency;
      (m.Some? && m.value in ScriptCurrencyMap ==> m'.Some? && m'.value in CurrencyValues && m'.value == CurrencyMap[m.value]) &&
      (m.None? || m.value !in ScriptCurrencyMap ==> m' == m)
  {
    var d := r.text.department;
    if d.Some? && d.value in ScriptDepartmentMap {
      ScriptDepartmentRange(d.value);
      ScriptDepartmentAgrees(d.value);
    }
    var m := r.text.currency;
    if m.Some? && m.value in ScriptCurrencyMap {
      ScriptCurrencyRange(m.value);
      ScriptCurrencyAgrees(m.value);
    }
  }

  /** Running the script's replacements twice changes nothing more. */
  lemma ScriptRowIdempotent(r: RawRow)
    ensures ScriptRow(ScriptRow(r)) == ScriptRow(r)
  {
    ScriptDepartmentTableWellFormed();
    ScriptCurrencyTableWellFormed();
    ReplaceIdempotent(ScriptDepartmentMap, r.text.department);
    ReplaceIdempotent(ScriptCurrencyMap, r.text.currency);
  }

  /** Where the script's department table has an entry, the pipeline's table agrees with it. */
  lemma ScriptDepartmentAgrees(k: string)
    requires k in ScriptDepartmentMap
    ensures k in DepartmentMap && DepartmentMap[k] == ScriptDepartmentMap[k]
  {
  }

  /** Where the script's currency table has an entry, the pipeline's table agrees with it. */
  lemma ScriptCurrencyAgrees(k: string)
    requires k in ScriptCurrencyMap
    ensures k in CurrencyMap && CurrencyMap[k] == ScriptCurrencyMap[k]
  {
  }

  /** "H.R." has no entry in the script's table and passes through, unlike in the pipeline. */
  lemma ScriptKeepsDottedHR()
    ensures Replace(ScriptDepartmentMap, Some("H.R.")) == Some("H.R.")
    ensures Replace(DepartmentMap, Some("H.R.")) == Some("Human Resource")
  {
  }

  /** Without trimming, a padded " HR" is no key and passes through. */
  lemma ScriptKeepsPaddedHR()
    ensures Replace(ScriptDepartmentMap, Some(" HR")) == Some(" HR")
  {
  }

  /** "GBP" has no entry in the script's currency table and passes through unchanged. */
  lemma ScriptKeepsGBP()
    ensures Replace(ScriptCurrencyMap, Some("GBP")) == Some("GBP")
  {
  }
}
