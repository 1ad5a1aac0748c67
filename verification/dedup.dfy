/**
 * Step 14: duplicate employee ids. `duplicated()` marks every row whose id
 * already occurred in an earlier row, and `drop_duplicates(keep='first')`
 * drops exactly those rows, keeping the order of the rest.
 */
module Dedup {
  import opened Records

  /** The ids present in `rows`. */
  function Ids(rows: seq<Employee>): set<int> {
    set i | 0 <= i < |rows| :: rows[i].employeeId
  }

  /** Row `i` repeats an id seen earlier: what `duplicated()` flags. */
  predicate IsRepeat(rows: seq<Employee>, i: nat)
    requires i < |rows|
  {
    rows[i].employeeId in Ids(rows[..i])
  }

  /** `duplicated().sum()`: the number of rows that repeat an earlier id. */
  function DuplicatedCount(rows: seq<Employee>): (n: nat)
    ensures n <= |rows|
  {
    if rows == [] then 0
    else
      var prefix := rows[..|rows| - 1];
      DuplicatedCount(prefix) + (if IsRepeat(rows, |rows| - 1) then 1 else 0)
  }

  /** `drop_duplicates(subset=['employee_id'], keep='first')`. */
  function KeepFirst(rows: seq<Employee>): seq<Employee> {
    if rows == [] then []
    else
      var prefix := rows[..|rows| - 1];
      if IsRepeat(rows, |rows| - 1) then KeepFirst(prefix)
      else KeepFirst(prefix) + [rows[|rows| - 1]]
  }

  /** Step 14 on the whole table: rows are dropped only when some id repeats. */
  function RemoveDuplicates(rows: seq<Employee>): seq<Employee> {
    if DuplicatedCount(rows) > 0 then KeepFirst(rows) else rows
  }

  /** Step 14 in place; returns the number of repeated ids it found. */
  method RemoveDuplicatesIn(df: Frame<Employee>) returns (duplicates: nat)
    modifies df
    ensures duplicates == DuplicatedCount(old(df.rows))
    ensures df.rows == RemoveDuplicates(old(df.rows))
  {
    duplicates := DuplicatedCount(df.rows);
    if duplicates > 0 {
      df.rows := KeepFirst(df.rows);
    }
  }

  predicate UniqueIds(rows: seq<Employee>) {
    forall i, j :: 0 <= i < j < |rows| ==> rows[i].employeeId != rows[j].employeeId
  }

  /** The position of the first row carrying `id`. */
  function FirstIndex(rows: seq<Employee>, id: int): (k: nat)
    requires id in Ids(rows)
    ensures k < |rows| && rows[k].employeeId == id && id !in Ids(rows[..k])
  {
    if rows[0].employeeId == id then 0
    else
      assert id in Ids(rows[1..]) by {
        var i :| 0 <= i < |rows| && rows[i].employeeId == id;
        assert rows[1..][i - 1] == rows[i];
      }
      var k := FirstIndex(rows[1..], id);
      assert id !in Ids(rows[..k + 1]) by {
        forall i | 0 <= i < k + 1 ensures rows[i].employeeId != id {
          if i > 0 {
            assert rows[i] == rows[1..][..k][i - 1];
          }
        }
      }
      k + 1
  }

  /** A row carrying `id` with no earlier row carrying it is the first index of `id`. */
  lemma FirstIndexUnique(rows: seq<Employee>, id: int, k: nat)
    requires k < |rows| && rows[k].employeeId == id && id !in Ids(rows[..k])
    ensures id in Ids(rows) && FirstIndex(rows, id) == k
  {
    var f := FirstIndex(rows, id);
    PrefixIds(rows, k);
    PrefixIds(rows, f);
  }

  /** Every id of the first `m` rows is an id of the prefix of length `m`. */
  lemma PrefixIds(rows: seq<Employee>, m: nat)
    requires m <= |rows|
    ensures forall i :: 0 <= i < m ==> rows[i].employeeId in Ids(rows[..m])
  {
    forall i | 0 <= i < m ensures rows[i].employeeId in Ids(rows[..m]) {
      assert rows[..m][i] == rows[i];
    }
  }

  lemma IdsSnoc(rows: seq<Employee>, e: Employee)
    ensures Ids(rows + [e]) == Ids(rows) + {e.employeeId}
  {
    var r := rows + [e];
    assert r[|rows|] == e;
    forall id | id in Ids(rows) ensures id in Ids(r) {
      var i :| 0 <= i < |rows| && rows[i].employeeId == id;
      assert r[i] == rows[i];
    }
  }

  /** Dropping repeats keeps every id: the result has the same ids as the input. */
  lemma {:induction false} KeepFirstIds(rows: seq<Employee>)
    ensures Ids(KeepFirst(rows)) == Ids(rows)
    decreases |rows|
  {
    if rows != [] {
      var prefix := rows[..|rows| - 1];
      var last := rows[|rows| - 1];
      KeepFirstIds(prefix);
      assert rows == prefix + [last];
      IdsSnoc(prefix, last);
      if !IsRepeat(rows, |rows| - 1) {
        IdsSnoc(KeepFirst(prefix), last);
      }
    }
  }

  /** No id occurs twice in the result. */
  lemma {:induction false} KeepFirstUnique(rows: seq<Employee>)
    ensures UniqueIds(KeepFirst(rows))
    decreases |rows|
  {
    if rows != [] {
      var prefix := rows[..|rows| - 1];
      var last := rows[|rows| - 1];
      KeepFirstUnique(prefix);
      if !IsRepeat(rows, |rows| - 1) {
        KeepFirstIds(prefix);
        var p := KeepFirst(prefix);
        var r := p + [last];
        forall i, j | 0 <= i < j < |r| ensures r[i].employeeId != r[j].employeeId {
          if j == |p| {
            assert r[i] == p[i];
            assert p[i].employeeId in Ids(p);
          }
        }
      }
    }
  }

  /** Exactly the repeats are dropped: the table shrinks by the duplicate count. */
  lemma {:induction false} KeepFirstLength(rows: seq<Employee>)
    ensures |rows| - |KeepFirst(rows)| == DuplicatedCount(rows)
    decreases |rows|
  {
    if rows != [] {
      KeepFirstLength(rows[..|rows| - 1]);
    }
  }

  /**
   * Each kept row is the first row of the input carrying its id, and the
   * kept rows appear in the order of those first rows.
   */
  lemma {:induction false} KeepFirstKeepsFirst(rows: seq<Employee>)
    ensures var r := KeepFirst(rows);
      forall j :: 0 <= j < |r| ==> r[j].employeeId in Ids(rows) && r[j] == rows[FirstIndex(rows, r[j].employeeId)]
    ensures var r := KeepFirst(rows);
      forall i, j :: 0 <= i < j < |r| ==>
        (r[i].employeeId in Ids(rows) && r[j].employeeId in Ids(rows) &&
         FirstIndex(rows, r[i].employeeId) < FirstIndex(rows, r[j].employeeId))
    decreases |rows|
  {
    if rows != [] {
      var n := |rows| - 1;
      var prefix := rows[..n];
      var last := rows[n];
      KeepFirstKeepsFirst(prefix);
      KeepFirstIds(prefix);
      var p := KeepFirst(prefix);
      var r := KeepFirst(rows);
      // A first index in the prefix is a first index in the whole table.
      forall j | 0 <= j < |p|
        ensures p[j].employeeId in Ids(rows) && p[j] == rows[FirstIndex(rows, p[j].employeeId)]
        ensures FirstIndex(rows, p[j].employeeId) == FirstIndex(prefix, p[j].employeeId) < n
      {
        var id := p[j].employeeId;
        var k := FirstIndex(prefix, id);
        assert rows[..k] == prefix[..k];
        FirstIndexUnique(rows, id, k);
      }
      if !IsRepeat(rows, n) {
        assert r == p + [last];
        assert rows[..n] == prefix;
        FirstIndexUnique(rows, last.employeeId, n);
        forall j | 0 <= j < |r|
          ensures r[j].employeeId in Ids(rows) && r[j] == rows[FirstIndex(rows, r[j].employeeId)]
        {
          if j < |p| {
            assert r[j] == p[j];
          }
        }
        forall i, j | 0 <= i < j < |r|
          ensures r[i].employeeId in Ids(rows) && r[j].employeeId in Ids(rows) &&
            FirstIndex(rows, r[i].employeeId) < FirstIndex(rows, r[j].employeeId)
        {
          assert r[i] == p[i];
          if j < |p| {
            assert r[j] == p[j];
          }
        }
      }
    }
  }

  /** With no repeated id, nothing is dropped. */
  lemma {:induction false} KeepFirstNoRepeats(rows: seq<Employee>)
    requires DuplicatedCount(rows) == 0
    ensures KeepFirst(rows) == rows
    decreases |rows|
  {
    if rows != [] {
      KeepFirstNoRepeats(rows[..|rows| - 1]);
      assert rows == rows[..|rows| - 1] + [rows[|rows| - 1]];
    }
  }

  /** Whether or not any id repeats, step 14 is the same as dropping every repeat. */
  lemma RemoveDuplicatesIsKeepFirst(rows: seq<Employee>)
    ensures RemoveDuplicates(rows) == KeepFirst(rows)
  {
    if DuplicatedCount(rows) == 0 {
      KeepFirstNoRepeats(rows);
    }
  }

  /** The duplicate count is zero exactly when the ids are unique. */
  lemma {:induction false} DuplicatedCountZero(rows: seq<Employee>)
    ensures DuplicatedCount(rows) == 0 <==> UniqueIds(rows)
    decreases |rows|
  {
    if rows != [] {
      var n := |rows| - 1;
      var prefix := rows[..n];
      DuplicatedCountZero(prefix);
      if UniqueIds(rows) {
        assert UniqueIds(prefix) by {
          forall i, j | 0 <= i < j < |prefix| ensures prefix[i].employeeId != prefix[j].employeeId {
            assert prefix[i] == rows[i] && prefix[j] == rows[j];
          }
        }
        assert !IsRepeat(rows, n) by {
          assert forall i :: 0 <= i < n ==> rows[..n][i].employeeId != rows[n].employeeId by {
            forall i | 0 <= i < n ensures rows[..n][i].employeeId != rows[n].employeeId {
              assert rows[..n][i] == rows[i];
            }
          }
        }
      }
      if DuplicatedCount(rows) == 0 {
        forall i, j | 0 <= i < j < |rows| ensures rows[i].employeeId != rows[j].employeeId {
          if j < n {
            assert prefix[i] == rows[i] && prefix[j] == rows[j];
          } else {
            assert rows[..n][i] == rows[i];
          }
        }
      }
    }
  }

  /** Step 14 leaves unique ids, the same id set, and a table shorter by the duplicate count. */
  lemma RemoveDuplicatesMeaning(rows: seq<Employee>)
    ensures UniqueIds(RemoveDuplicates(rows))
    ensures Ids(RemoveDuplicates(rows)) == Ids(rows)
    ensures |rows| - |RemoveDuplicates(rows)| == DuplicatedCount(rows)
    ensures DuplicatedCount(RemoveDuplicates(rows)) == 0
  {
    RemoveDuplicatesIsKeepFirst(rows);
    KeepFirstUnique(rows);
    KeepFirstIds(rows);
    KeepFirstLength(rows);
    DuplicatedCountZero(KeepFirst(rows));
  }
}
