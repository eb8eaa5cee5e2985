/** The rows of the `employees` table and the pure meaning of the statements
    the request handlers run against it: which rows a WHERE clause selects,
    what a DELETE leaves behind, what an UPDATE writes, and how many rows
    each one affects. */
module Employees {

  /** One row `(id, name, position, email)`; `id` is assigned by the store. */
  datatype Employee = Employee(id: nat, name: string, position: string, email: string)

  // ---------------------------------------------------------------------
  // Matching a form token against the integer `id` column.
  // The handlers bind the raw form text to `id = ?`; the column's integer
  // affinity turns a decimal text such as "1" or "01" into the integer 1.
  // ---------------------------------------------------------------------

  predicate IsDigit(c: char) {
    '0' <= c <= '9'
  }

  predicate AllDigits(t: string) {
    forall i :: 0 <= i < |t| ==> IsDigit(t[i])
  }

  /** A token that the store reads as an integer. */
  predicate IsDecimal(t: string) {
    |t| > 0 && AllDigits(t)
  }

  /** The value of a string of decimal digits, most significant first. */
  function DecimalValue(t: string): nat
    requires AllDigits(t)
  {
    if t == [] then 0
    else 10 * DecimalValue(t[..|t| - 1]) + (t[|t| - 1] as int - '0' as int)
  }

  /** `id = token` holds in the store. */
  predicate TokenMatchesId(token: string, id: nat) {
    IsDecimal(token) && DecimalValue(token) == id
  }

  /** Leading zeros do not change which id a token selects: "01" and "1"
      pick the same row. */
  lemma {:induction false} LeadingZeroMatchesSameId(t: string, id: nat)
    requires t != []
    ensures TokenMatchesId("0" + t, id) <==> TokenMatchesId(t, id)
  {
    var z := "0" + t;
    assert forall i :: 0 <= i < |t| ==> t[i] == z[i + 1];
    if AllDigits(t) {
      assert AllDigits(z) by {
        forall i | 0 <= i < |z| ensures IsDigit(z[i]) {
          if i > 0 { assert z[i] == t[i - 1]; }
        }
      }
      LeadingZeroValue(t);
    } else {
      var i :| 0 <= i < |t| && !IsDigit(t[i]);
      assert !IsDigit(z[i + 1]);
    }
  }

  lemma {:induction false} LeadingZeroValue(t: string)
    requires AllDigits(t)
    ensures AllDigits("0" + t) && DecimalValue("0" + t) == DecimalValue(t)
  {
    var z := "0" + t;
    assert AllDigits(z) by {
      forall i | 0 <= i < |z| ensures IsDigit(z[i]) {
        if i > 0 { assert z[i] == t[i - 1]; }
      }
    }
    if t == [] {
      assert z == "0";
      assert z[..0] == [];
    } else {
      var init := t[..|t| - 1];
      assert AllDigits(init) by {
        forall i | 0 <= i < |init| ensures IsDigit(init[i]) { assert init[i] == t[i]; }
      }
      LeadingZeroValue(init);
      assert z[..|z| - 1] == "0" + init;
      assert z[|z| - 1] == t[|t| - 1];
    }
  }

  // ---------------------------------------------------------------------
  // WHERE clauses and the statements built on them.
  // ---------------------------------------------------------------------

  /** The two WHERE clauses the delete handler uses: `id = ?` and `name = ?`. */
  datatype Criterion = ById(token: string) | ByName(token: string)

  predicate Matches(c: Criterion, e: Employee) {
    match c
    case ById(t) => TokenMatchesId(t, e.id)
    case ByName(t) => e.name == t
  }

  /** Some row satisfies the WHERE clause. */
  predicate HasMatch(rows: seq<Employee>, c: Criterion) {
    exists i :: 0 <= i < |rows| && Matches(c, rows[i])
  }

  /** The number of rows the WHERE clause selects: the `rowcount` of a
      DELETE or UPDATE with that clause. */
  function Count(rows: seq<Employee>, c: Criterion): nat {
    if rows == [] then 0
    else (if Matches(c, rows[0]) then 1 else 0) + Count(rows[1..], c)
  }

  /** The table after `DELETE ... WHERE c`: the unselected rows, in their order. */
  function Without(rows: seq<Employee>, c: Criterion): seq<Employee> {
    if rows == [] then []
    else if Matches(c, rows[0]) then Without(rows[1..], c)
    else [rows[0]] + Without(rows[1..], c)
  }

  /** One row after `UPDATE ... SET name, position, email WHERE id = token`. */
  function Assigned(e: Employee, token: string, name: string, position: string, email: string): Employee {
    if TokenMatchesId(token, e.id) then e.(name := name, position := position, email := email) else e
  }

  /** The table after `UPDATE ... SET name, position, email WHERE id = token`. */
  function SetWhereId(rows: seq<Employee>, token: string, name: string, position: string, email: string): seq<Employee> {
    if rows == [] then []
    else [Assigned(rows[0], token, name, position, email)] + SetWhereId(rows[1..], token, name, position, email)
  }

  /** Rows in insertion order carry strictly increasing ids, since every
      insert takes a fresh id above all earlier ones. */
  predicate IncreasingIds(rows: seq<Employee>) {
    forall i, j :: 0 <= i < j < |rows| ==> rows[i].id < rows[j].id
  }

  // ---------------------------------------------------------------------
  // Properties of DELETE.
  // ---------------------------------------------------------------------

  /** A statement affects no row exactly when no row satisfies its WHERE clause. */
  lemma {:induction false} CountZeroIffNoMatch(rows: seq<Employee>, c: Criterion)
    ensures Count(rows, c) == 0 <==> !HasMatch(rows, c)
  {
    if rows != [] {
      CountZeroIffNoMatch(rows[1..], c);
      if HasMatch(rows[1..], c) {
        var i :| 0 <= i < |rows[1..]| && Matches(c, rows[1..][i]);
        assert Matches(c, rows[i + 1]);
      }
      if HasMatch(rows, c) && !Matches(c, rows[0]) {
        var i :| 0 <= i < |rows| && Matches(c, rows[i]);
        assert Matches(c, rows[1..][i - 1]);
      }
    }
  }

  /** A DELETE removes exactly `rowcount` rows. */
  lemma {:induction false} WithoutSize(rows: seq<Employee>, c: Criterion)
    ensures |Without(rows, c)| == |rows| - Count(rows, c)
  {
    if rows != [] {
      WithoutSize(rows[1..], c);
    }
  }

  /** A row survives a DELETE exactly when it was there and is not selected. */
  lemma {:induction false} WithoutMembership(rows: seq<Employee>, c: Criterion, x: Employee)
    ensures x in Without(rows, c) <==> x in rows && !Matches(c, x)
  {
    if rows != [] {
      WithoutMembership(rows[1..], c, x);
      assert rows == [rows[0]] + rows[1..];
    }
  }

  /** A DELETE that selects nothing leaves the table as it was. */
  lemma {:induction false} WithoutNoMatch(rows: seq<Employee>, c: Criterion)
    requires !HasMatch(rows, c)
    ensures Without(rows, c) == rows
  {
    if rows != [] {
      assert Matches(c, rows[0]) ==> HasMatch(rows, c);
      assert !HasMatch(rows[1..], c) by {
        forall i | 0 <= i < |rows[1..]| ensures !Matches(c, rows[1..][i]) {
          assert rows[1..][i] == rows[i + 1];
        }
      }
      WithoutNoMatch(rows[1..], c);
    }
  }

  lemma {:induction false} WithoutAppend(a: seq<Employee>, b: seq<Employee>, c: Criterion)
    ensures Without(a + b, c) == Without(a, c) + Without(b, c)
  {
    if a != [] {
      WithoutAppend(a[1..], b, c);
      assert (a + b)[1..] == a[1..] + b;
      assert (a + b)[0] == a[0];
    } else {
      assert a + b == b;
    }
  }

  /** Deleting keeps the surviving rows in insertion order. */
  lemma {:induction false} WithoutIncreasing(rows: seq<Employee>, c: Criterion)
    requires IncreasingIds(rows)
    ensures IncreasingIds(Without(rows, c))
  {
    if rows != [] {
      var tail := rows[1..];
      assert IncreasingIds(tail) by {
        forall i, j | 0 <= i < j < |tail| ensures tail[i].id < tail[j].id {
          assert tail[i] == rows[i + 1] && tail[j] == rows[j + 1];
        }
      }
      WithoutIncreasing(tail, c);
      var rest := Without(tail, c);
      if !Matches(c, rows[0]) {
        forall j | 0 <= j < |rest| ensures rows[0].id < rest[j].id {
          WithoutMembership(tail, c, rest[j]);
          var m :| 0 <= m < |tail| && tail[m] == rest[j];
          assert tail[m] == rows[m + 1];
        }
        var r := [rows[0]] + rest;
        forall i, j | 0 <= i < j < |r| ensures r[i].id < r[j].id {
          if i == 0 {
            assert r[j] == rest[j - 1];
          } else {
            assert r[i] == rest[i - 1] && r[j] == rest[j - 1];
          }
        }
      }
    }
  }

  /** With ids distinct, a token that matches the id of row `k` matches no
      other row. */
  lemma {:induction false} IdMatchIsUnique(rows: seq<Employee>, token: string, k: nat, i: nat)
    requires IncreasingIds(rows)
    requires k < |rows| && i < |rows| && i != k
    requires TokenMatchesId(token, rows[k].id)
    ensures !TokenMatchesId(token, rows[i].id)
  {
    assert rows[i].id != rows[k].id;
  }

  /** Delete by id: when the token matches the id of row `k`, exactly that
      row goes and every other row, whatever its name, stays in order. */
  lemma {:induction false} WithoutSingleId(rows: seq<Employee>, token: string, k: nat)
    requires IncreasingIds(rows)
    requires k < |rows| && TokenMatchesId(token, rows[k].id)
    ensures Without(rows, ById(token)) == rows[..k] + rows[k + 1..]
    ensures Count(rows, ById(token)) == 1
  {
    var c := ById(token);
    var before, after := rows[..k], rows[k + 1..];
    assert rows == before + ([rows[k]] + after);
    assert !HasMatch(before, c) by {
      forall i | 0 <= i < |before| ensures !Matches(c, before[i]) {
        IdMatchIsUnique(rows, token, k, i);
      }
    }
    assert !HasMatch(after, c) by {
      forall i | 0 <= i < |after| ensures !Matches(c, after[i]) {
        assert after[i] == rows[k + 1 + i];
        IdMatchIsUnique(rows, token, k, k + 1 + i);
      }
    }
    WithoutAppend(before, [rows[k]] + after, c);
    WithoutNoMatch(before, c);
    assert ([rows[k]] + after)[1..] == after;
    WithoutNoMatch(after, c);
    WithoutSize(rows, c);
  }

  // ---------------------------------------------------------------------
  // Properties of UPDATE.
  // ---------------------------------------------------------------------

  /** The UPDATE row by row: a selected row keeps its id and takes exactly
      the new name, position and email (empty ones included); any other row
      is untouched. */
  lemma {:induction false} SetWhereIdAt(rows: seq<Employee>, token: string, name: string, position: string, email: string)
    ensures |SetWhereId(rows, token, name, position, email)| == |rows|
    ensures forall i :: 0 <= i < |rows| ==>
      SetWhereId(rows, token, name, position, email)[i] ==
        if TokenMatchesId(token, rows[i].id) then Employee(rows[i].id, name, position, email) else rows[i]
  {
    if rows != [] {
      SetWhereIdAt(rows[1..], token, name, position, email);
      var r := SetWhereId(rows, token, name, position, email);
      forall i | 0 <= i < |rows|
        ensures r[i] == if TokenMatchesId(token, rows[i].id) then Employee(rows[i].id, name, position, email) else rows[i]
      {
        if i > 0 { assert rows[1..][i - 1] == rows[i]; }
      }
    }
  }

  /** Running the same UPDATE twice leaves the table the single run left. */
  lemma {:induction false} SetWhereIdIdempotent(rows: seq<Employee>, token: string, name: string, position: string, email: string)
    ensures SetWhereId(SetWhereId(rows, token, name, position, email), token, name, position, email)
         == SetWhereId(rows, token, name, position, email)
  {
    var once := SetWhereId(rows, token, name, position, email);
    SetWhereIdAt(rows, token, name, position, email);
    SetWhereIdAt(once, token, name, position, email);
  }

  /** An UPDATE keeps ids in place, so it keeps them increasing and selects
      the same rows when run again. */
  lemma {:induction false} SetWhereIdKeepsIds(rows: seq<Employee>, token: string, name: string, position: string, email: string)
    ensures |SetWhereId(rows, token, name, position, email)| == |rows|
    ensures forall i :: 0 <= i < |rows| ==> SetWhereId(rows, token, name, position, email)[i].id == rows[i].id
    ensures IncreasingIds(rows) ==> IncreasingIds(SetWhereId(rows, token, name, position, email))
  {
    SetWhereIdAt(rows, token, name, position, email);
  }

  /** An UPDATE whose id matches no row leaves the table as it was. */
  lemma {:induction false} SetWhereIdNoMatch(rows: seq<Employee>, token: string, name: string, position: string, email: string)
    requires !HasMatch(rows, ById(token))
    ensures SetWhereId(rows, token, name, position, email) == rows
  {
    SetWhereIdAt(rows, token, name, position, email);
    forall i | 0 <= i < |rows| ensures !TokenMatchesId(token, rows[i].id) {
      assert !Matches(ById(token), rows[i]);
    }
  }

  /** Update by id: when the token matches the id of row `k`, that row alone
      is rewritten, keeping its id. */
  lemma {:induction false} SetWhereIdSingle(rows: seq<Employee>, token: string, k: nat, name: string, position: string, email: string)
    requires IncreasingIds(rows)
    requires k < |rows| && TokenMatchesId(token, rows[k].id)
    ensures SetWhereId(rows, token, name, position, email) == rows[k := Employee(rows[k].id, name, position, email)]
  {
    SetWhereIdAt(rows, token, name, position, email);
    forall i | 0 <= i < |rows| && i != k ensures !TokenMatchesId(token, rows[i].id) {
      IdMatchIsUnique(rows, token, k, i);
    }
  }
}
