/**
 * Steps 5 to 9: the five category standardisers. Each is `Series.replace`
 * with a fixed dictionary: a value that is a key becomes its canonical value,
 * any other value (and a missing cell) is left as it is. Department is
 * converted with `astype(str)` and stripped before the lookup.
 */
module Categories {
  import opened Wrappers
  import opened Text
  import opened Records

  const GenderMap: map<string, string> := map[
    "M" := "Male", "Male" := "Male",
    "F" := "Female", "Female" := "Female",
    "Other" := "Other"]

  const DepartmentMap: map<string, string> := map[
    "HR" := "Human Resource", "H.R" := "Human Resource", "H.R." := "Human Resource",
    "Human Resources" := "Human Resource", "Human Resource" := "Human Resource",
    "IT" := "Information Technology", "Information Technology" := "Information Technology",
    "Ops" := "Operations", "Operations" := "Operations",
    "Eng" := "Engineering", "Engineering" := "Engineering",
    "FIN" := "Finance", "Finance" := "Finance",
    "sales" := "Sales", "Sales" := "Sales"]

  /** "Â£" is "£" read back in the wrong encoding. */
  const CurrencyMap: map<string, string> := map[
    "ZAR" := "ZAR", "R" := "ZAR",
    "$" := "USD",
    "GBP" := "GBP", "£" := "GBP", "Â£" := "GBP",
    "USD" := "USD"]

  const CountryMap: map<string, string> := map[
    "south-africa" := "South Africa", "South Africa" := "South Africa",
    "SA" := "South Africa", "ZA" := "South Africa",
    "UK" := "United Kingdom", "U.K." := "United Kingdom", "United Kingdom" := "United Kingdom",
    "USA" := "United States", "United States" := "United States"]

  const StateMap: map<string, string> := map[
    "KZN" := "KwaZulu-Natal", "KwaZulu-Natal" := "KwaZulu-Natal",
    "Western Cape" := "Western Cape", "Gauteng" := "Gauteng", "Limpopo" := "Limpopo"]

  /** Exact-match lookup: a key maps to its value, anything else to itself. */
  function Lookup(m: map<string, string>, s: string): string {
    if s in m then m[s] else s
  }

  /** `Series.replace(m)` on one cell: a missing cell is never a key, so it stays missing. */
  function Replace(m: map<string, string>, v: Option<string>): Option<string> {
    match v
    case None => None
    case Some(s) => Some(Lookup(m, s))
  }

  /** `astype(str).str.strip().replace(m)` on one cell, as the department step does it. */
  function StripReplace(m: map<string, string>, v: Option<string>): Option<string> {
    Some(Lookup(m, Strip(AsText(v))))
  }

  /** Every value the table produces is left alone by a second lookup. */
  ghost predicate Canonical(m: map<string, string>) {
    forall k | k in m :: m[k] !in m || m[m[k]] == m[k]
  }

  /** The table's values carry no surrounding whitespace. */
  ghost predicate ValuesStripped(m: map<string, string>) {
    forall k | k in m :: IsStripped(m[k])
  }

  /** Replacing with a canonical table twice is the same as once. */
  lemma ReplaceIdempotent(m: map<string, string>, v: Option<string>)
    requires Canonical(m)
    ensures Replace(m, Replace(m, v)) == Replace(m, v)
  {
    if v.Some? && v.value in m {
      assert m[v.value] !in m || m[m[v.value]] == m[v.value];
    }
  }

  /** A looked-up value is a canonical value of the table, or the input itself when that is no key. */
  lemma LookupCanonicalOrUnmapped(m: map<string, string>, s: string)
    ensures Lookup(m, s) in m.Values || (s !in m && Lookup(m, s) == s)
  {
  }

  /** Lookup keeps a value free of surrounding whitespace when the table's values are. */
  lemma LookupKeepsStripped(m: map<string, string>, s: string)
    requires ValuesStripped(m) && IsStripped(s)
    ensures IsStripped(Lookup(m, s))
  {
  }

  /** The department step's result is trimmed, and running it again changes nothing. */
  lemma StripReplaceIdempotent(m: map<string, string>, v: Option<string>)
    requires Canonical(m) && ValuesStripped(m)
    ensures StripReplace(m, v).Some? && IsStripped(StripReplace(m, v).value)
    ensures StripReplace(m, StripReplace(m, v)) == StripReplace(m, v)
  {
    var s := Strip(AsText(v));
    LookupKeepsStripped(m, s);
    StripStripped(Lookup(m, s));
    if s in m {
      assert m[s] !in m || m[m[s]] == m[s];
    }
  }

  const GenderValues: set<string> := {"Male", "Female", "Other"}
  const DepartmentValues: set<string> :=
    {"Human Resource", "Information Technology", "Operations", "Engineering", "Finance", "Sales"}
  const CurrencyValues: set<string> := {"ZAR", "USD", "GBP"}
  const CountryValues: set<string> := {"South Africa", "United Kingdom", "United States"}
  const StateValues: set<string> := {"KwaZulu-Natal", "Western Cape", "Gauteng", "Limpopo"}

  /**
   * A table is well formed over `vals` when it maps every key into `vals` and
   * every value of `vals` to itself: it is then canonical and its values are
   * exactly `vals`.
   */
  lemma WellFormedTable(m: map<string, string>, vals: set<string>)
    requires forall k | k in m :: m[k] in vals
    requires forall v | v in vals :: v in m && m[v] == v
    ensures Canonical(m) && m.Values == vals
  {
    forall v | v in vals ensures v in m.Values {
      assert m[v] == v;
    }
  }

  lemma GenderRange(k: string)
    requires k in GenderMap
    ensures GenderMap[k] in GenderValues
  {
  }

  lemma GenderFixedPoints()
    ensures forall v | v in GenderValues :: v in GenderMap && GenderMap[v] == v
  {
    assert GenderMap["Male"] == "Male";
    assert GenderMap["Female"] == "Female";
    assert GenderMap["Other"] == "Other";
  }

  /** The gender table is canonical, its values are exactly the canonical set, and they are trimmed. */
  lemma GenderTableWellFormed()
    ensures Canonical(GenderMap) && GenderMap.Values == GenderValues && ValuesStripped(GenderMap)
  {
    forall k | k in GenderMap ensures GenderMap[k] in GenderValues && IsStripped(GenderMap[k]) {
      GenderRange(k);
    }
    GenderFixedPoints();
    WellFormedTable(GenderMap, GenderValues);
  }

  lemma DepartmentRange(k: string)
    requires k in DepartmentMap
    ensures DepartmentMap[k] in DepartmentValues
  {
  }

  lemma DepartmentFixedPoints()
    ensures forall v | v in DepartmentValues :: v in DepartmentMap && DepartmentMap[v] == v
  {
    assert DepartmentMap["Human Resource"] == "Human Resource";
    assert DepartmentMap["Information Technology"] == "Information Technology";
    assert DepartmentMap["Operations"] == "Operations";
    assert DepartmentMap["Engineering"] == "Engineering";
    assert DepartmentMap["Finance"] == "Finance";
    assert DepartmentMap["Sales"] == "Sales";
  }

  /** The department table is canonical, its values are exactly the canonical set, and they are trimmed. */
  lemma DepartmentTableWellFormed()
    ensures Canonical(DepartmentMap) && DepartmentMap.Values == DepartmentValues && ValuesStripped(DepartmentMap)
  {
    forall k | k in DepartmentMap ensures DepartmentMap[k] in DepartmentValues && IsStripped(DepartmentMap[k]) {
      DepartmentRange(k);
    }
    DepartmentFixedPoints();
    WellFormedTable(DepartmentMap, DepartmentValues);
  }

  lemma CurrencyRange(k: string)
    requires k in CurrencyMap
    ensures CurrencyMap[k] in CurrencyValues
  {
  }

  lemma CurrencyFixedPoints()
    ensures forall v | v in CurrencyValues :: v in CurrencyMap && CurrencyMap[v] == v
  {
    assert CurrencyMap["ZAR"] == "ZAR";
    assert CurrencyMap["USD"] == "USD";
    assert CurrencyMap["GBP"] == "GBP";
  }

  /** The currency table is canonical, its values are exactly the canonical set, and they are trimmed. */
  lemma CurrencyTableWellFormed()
    ensures Canonical(CurrencyMap) && CurrencyMap.Values == CurrencyValues && ValuesStripped(CurrencyMap)
  {
    forall k | k in CurrencyMap ensures CurrencyMap[k] in CurrencyValues && IsStripped(CurrencyMap[k]) {
      CurrencyRange(k);
    }
    CurrencyFixedPoints();
    WellFormedTable(CurrencyMap, CurrencyValues);
  }

  lemma CountryRange(k: string)
    requires k in CountryMap
    ensures CountryMap[k] in CountryValues
  {
  }

  lemma CountryFixedPoints()
    ensures forall v | v in CountryValues :: v in CountryMap && CountryMap[v] == v
  {
    assert CountryMap["South Africa"] == "South Africa";
    assert CountryMap["United Kingdom"] == "United Kingdom";
    assert CountryMap["United States"] == "United States";
  }

  /** The country table is canonical, its values are exactly the canonical set, and they are trimmed. */
  lemma CountryTableWellFormed()
    ensures Canonical(CountryMap) && CountryMap.Values == CountryValues && ValuesStripped(CountryMap)
  {
    forall k | k in CountryMap ensures CountryMap[k] in CountryValues && IsStripped(CountryMap[k]) {
      CountryRange(k);
    }
    CountryFixedPoints();
    WellFormedTable(CountryMap, CountryValues);
  }

  lemma StateRange(k: string)
    requires k in StateMap
    ensures StateMap[k] in StateValues
  {
  }

  lemma StateFixedPoints()
    ensures forall v | v in StateValues :: v in StateMap && StateMap[v] == v
  {
    assert StateMap["KwaZulu-Natal"] == "KwaZulu-Natal";
    assert StateMap["Western Cape"] == "Western Cape";
    assert StateMap["Gauteng"] == "Gauteng";
    assert StateMap["Limpopo"] == "Limpopo";
  }

  /** The state table is canonical, its values are exactly the canonical set, and they are trimmed. */
  lemma StateTableWellFormed()
    ensures Canonical(StateMap) && StateMap.Values == StateValues && ValuesStripped(StateMap)
  {
    forall k | k in StateMap ensures StateMap[k] in StateValues && IsStripped(StateMap[k]) {
      StateRange(k);
    }
    StateFixedPoints();
    WellFormedTable(StateMap, StateValues);
  }

  /** The values of all five tables are trimmed. */
  lemma StandardTablesStripped()
    ensures ValuesStripped(GenderMap) && ValuesStripped(DepartmentMap) && ValuesStripped(CurrencyMap)
    ensures ValuesStripped(CountryMap) && ValuesStripped(StateMap)
  {
    GenderTableWellFormed();
    DepartmentTableWellFormed();
    CurrencyTableWellFormed();
    CountryTableWellFormed();
    StateTableWellFormed();
  }

  /** One standardiser on one row: only column `c` changes. */
  function ReplaceColumn(e: Employee, c: TextCol, m: map<string, string>): Employee {
    e.(text := SetText(e.text, c, Replace(m, GetText(e.text, c))))
  }

  method StandardizeGender(df: Frame<Employee>)
    modifies df
    ensures |df.rows| == |old(df.rows)|
    ensures forall i :: 0 <= i < |df.rows| ==> df.rows[i] == ReplaceColumn(old(df.rows[i]), Gender, GenderMap)
  {
    df.rows := MapRows(df.rows, (e: Employee) => ReplaceColumn(e, Gender, GenderMap));
  }

  /** The department step on one row. */
  function DepartmentRow(e: Employee, m: map<string, string>): Employee {
    e.(text := SetText(e.text, Department, StripReplace(m, GetText(e.text, Department))))
  }

  method StandardizeDepartment(df: Frame<Employee>)
    modifies df
    ensures |df.rows| == |old(df.rows)|
    ensures forall i :: 0 <= i < |df.rows| ==> df.rows[i] == DepartmentRow(old(df.rows[i]), DepartmentMap)
  {
    df.rows := MapRows(df.rows, (e: Employee) => DepartmentRow(e, DepartmentMap));
  }

  method StandardizeCurrency(df: Frame<Employee>)
    modifies df
    ensures |df.rows| == |old(df.rows)|
    ensures forall i :: 0 <= i < |df.rows| ==> df.rows[i] == ReplaceColumn(old(df.rows[i]), Currency, CurrencyMap)
  {
    df.rows := MapRows(df.rows, (e: Employee) => ReplaceColumn(e, Currency, CurrencyMap));
  }

  method StandardizeCountry(df: Frame<Employee>)
    modifies df
    ensures |df.rows| == |old(df.rows)|
    ensures forall i :: 0 <= i < |df.rows| ==> df.rows[i] == ReplaceColumn(old(df.rows[i]), Country, CountryMap)
  {
    df.rows := MapRows(df.rows, (e: Employee) => ReplaceColumn(e, Country, CountryMap));
  }

  method StandardizeState(df: Frame<Employee>)
    modifies df
    ensures |df.rows| == |old(df.rows)|
    ensures forall i :: 0 <= i < |df.rows| ==> df.rows[i] == ReplaceColumn(old(df.rows[i]), State, StateMap)
  {
    df.rows := MapRows(df.rows, (e: Employee) => ReplaceColumn(e, State, StateMap));
  }

  /**
   * After a standardiser a present value is one of the table's canonical
   * values, or a value that is no key and was left as it was; a missing
   * cell stays missing.
   */
  lemma ReplaceStandardizes(m: map<string, string>, vals: set<string>, v: Option<string>)
    requires m.Values == vals
    ensures var r := Replace(m, v);
      (v == None && r == None) || r.value in vals || (v.value !in m && r == v)
  {
    if v.Some? && v.value in m {
      assert m[v.value] in m.Values;
    }
  }

  /** After the department step the value is a canonical department or the trimmed text that is no key. */
  lemma StripReplaceStandardizes(m: map<string, string>, vals: set<string>, v: Option<string>)
    requires m.Values == vals
    ensures var s := Strip(AsText(v)); var r := StripReplace(m, v);
      r.Some? && (r.value in vals || (s !in m && r.value == s))
  {
    var s := Strip(AsText(v));
    if s in m {
      assert m[s] in m.Values;
    }
  }

  /** Both "H.R" and "H.R." map to Human Resource. */
  lemma DepartmentAbbreviationExample()
    ensures StripReplace(DepartmentMap, Some("H.R")) == Some("Human Resource")
    ensures StripReplace(DepartmentMap, Some("H.R.")) == Some("Human Resource")
  {
    StripStripped("H.R");
    StripStripped("H.R.");
  }

  /** A missing department is turned into the text "nan", which no table key matches. */
  lemma DepartmentMissingExample()
    ensures StripReplace(DepartmentMap, None) == Some("nan")
  {
    StripStripped("nan");
  }

  /** Padding is stripped before the department lookup. */
  lemma DepartmentPaddedExample()
    ensures StripReplace(DepartmentMap, Some(" HR ")) == Some("Human Resource")
  {
    assert Strip(" HR ") == "HR";
  }
}
