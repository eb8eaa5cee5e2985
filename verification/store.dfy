/** The record store: the single `employees` table, created empty, with an
    AUTOINCREMENT id counter. Each primitive stands for one SQL statement and
    returns that statement's `rowcount`. */
module Store {
  import opened Employees

  class Table {
    /** The rows, in insertion order (the order a plain SELECT yields). */
    var rows: seq<Employee>
    /** The id the next INSERT receives: one above every id ever assigned. */
    var nextId: nat
    /** Every id the table has ever assigned, including those of deleted rows. */
    ghost var issued: set<nat>

    ghost predicate Valid()
      reads this
    {
      1 <= nextId &&
      IncreasingIds(rows) &&
      (forall i :: 0 <= i < |rows| ==> rows[i].id in issued) &&
      (forall id :: id in issued ==> 1 <= id < nextId)
    }

    /** `CREATE TABLE IF NOT EXISTS employees (...)` on a fresh database:
        no rows, and the first id handed out is 1. */
    constructor ()
      ensures Valid()
      ensures rows == [] && nextId == 1 && issued == {}
    {
      rows := [];
      nextId := 1;
      issued := {};
    }

    /** `SELECT * FROM employees`: every row, in insertion order, with the
        table untouched. */
    method GetEmployees() returns (all: seq<Employee>)
      requires Valid()
      ensures all == rows
      ensures IncreasingIds(all)
    {
      all := rows;
    }

    /** `INSERT INTO employees (name, position, email) VALUES (?, ?, ?)`.
        The store itself accepts empty fields. */
    method Insert(name: string, position: string, email: string) returns (rowcount: nat)
      requires Valid()
      modifies this
      ensures Valid()
      ensures rowcount == 1
      ensures rows == old(rows) + [Employee(old(nextId), name, position, email)]
      ensures old(nextId) !in old(issued)
      ensures forall id :: id in old(issued) ==> id < old(nextId)
      ensures nextId == old(nextId) + 1 && issued == old(issued) + {old(nextId)}
    {
      var row := Employee(nextId, name, position, email);
      forall i, j | 0 <= i < j < |rows + [row]| ensures (rows + [row])[i].id < (rows + [row])[j].id {
        assert (rows + [row])[i] == rows[i];
        assert rows[i].id in issued;
      }
      rows := rows + [row];
      issued := issued + {nextId};
      nextId := nextId + 1;
      rowcount := 1;
    }

    /** `DELETE FROM employees WHERE id = ?` or `... WHERE name = ?`. */
    method DeleteWhere(c: Criterion) returns (rowcount: nat)
      requires Valid()
      modifies this
      ensures Valid()
      ensures rows == Without(old(rows), c)
      ensures rowcount == Count(old(rows), c) == |old(rows)| - |rows|
      ensures rowcount == 0 <==> !HasMatch(old(rows), c)
      ensures rowcount == 0 ==> rows == old(rows)
      ensures forall x :: x in rows <==> x in old(rows) && !Matches(c, x)
      ensures nextId == old(nextId) && issued == old(issued)
    {
      rowcount := Count(rows, c);
      CountZeroIffNoMatch(rows, c);
      WithoutSize(rows, c);
      WithoutIncreasing(rows, c);
      if rowcount == 0 {
        WithoutNoMatch(rows, c);
      }
      var kept := Without(rows, c);
      forall x ensures x in kept <==> x in rows && !Matches(c, x) {
        WithoutMembership(rows, c, x);
      }
      forall i | 0 <= i < |kept| ensures kept[i].id in issued {
        assert kept[i] in rows;
      }
      rows := kept;
    }

    /** `UPDATE employees SET name = ?, position = ?, email = ? WHERE id = ?`. */
    method UpdateWhereId(token: string, name: string, position: string, email: string) returns (rowcount: nat)
      requires Valid()
      modifies this
      ensures Valid()
      ensures rows == SetWhereId(old(rows), token, name, position, email)
      ensures rowcount == Count(old(rows), ById(token))
      ensures rowcount == 0 <==> !HasMatch(old(rows), ById(token))
      ensures rowcount == 0 ==> rows == old(rows)
      ensures nextId == old(nextId) && issued == old(issued)
    {
      rowcount := Count(rows, ById(token));
      CountZeroIffNoMatch(rows, ById(token));
      if rowcount == 0 {
        SetWhereIdNoMatch(rows, token, name, position, email);
      }
      SetWhereIdKeepsIds(rows, token, name, position, email);
      rows := SetWhereId(rows, token, name, position, email);
    }
  }
}
