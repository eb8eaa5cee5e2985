# Employee directory: table state and request-handler decisions

This project models the core of a small Flask employee-directory app. It
covers the single SQLite table `employees(id, name, position, email)` and
what the request handlers do to it:

- the keyword login on `POST /`;
- `add_data`, which refuses empty fields and otherwise inserts one row;
- `delete_data`, which deletes by id and falls back to deleting by name only when the id delete removed nothing;
- `update_data`, which updates by id, reports a missing id, and otherwise runs the same update a second time.

Files:

- `employees.dfy` (module `Employees`) holds the data model, meaning values with no identity.
  - `Employee` is one row.
  - `Criterion` is one of the two `WHERE` clauses, `id = ?` or `name = ?`.
  - `TokenMatchesId` says when a form token equals an integer id. The id column has integer affinity, so a decimal text such as `"1"` or `"01"` matches id 1.
  - Pure functions give the meaning of each SQL statement: `Without` for a DELETE, `SetWhereId` for an UPDATE, and `Count` for the `rowcount`.
  - Lemmas prove the properties the handlers rely on.
- `store.dfy` (module `Store`) holds the record store, the class `Table`.
  - Its fields are the row sequence in insertion order, the AUTOINCREMENT counter `nextId`, and a ghost set `issued` of every id ever handed out.
  - `Valid()` says ids are strictly increasing in row order. It also says every id is in `issued` and every issued id is below `nextId`. So ids are unique and never reused.
  - `Insert`, `DeleteWhere` and `UpdateWhereId` stand for the four SQL statements. Each returns its `rowcount`.
- `app.dfy` (module `App`) holds the handlers.
  - `Home` is a pure function.
  - `AddData`, `DeleteData` and `UpdateData` are methods that change a `Table` and return a `Response`. A `Response` is either `Redirect(endpoint)` or `Inline(html)`.
  - Three client methods check, when the project is verified, three cases: id precedence over a row named `"1"`, a token that matches nothing, and insert → update → delete → insert.

Facts about the source that the model keeps:

- The update failure text is `No data found with ID: {ID}` (app.py:174).
- `add_data` never reads back the new id (app.py:110-117).
- `update_data` commits the first UPDATE before it reads `rowcount` (app.py:170-173).

## Model

| member | source | states |
|---|---|---|
| `Store.Table.constructor` | app.py:11-34 | Creating the table on a fresh database gives no rows, the first id to hand out is 1, and no id has been issued yet. |
| `Store.Table.GetEmployees` | app.py:37-49 | Returns every row in insertion order and changes nothing. The returned ids are strictly increasing, so they are distinct. |
| `Store.Table.Insert` | app.py:110-112 | Inserts one row, so rowcount is 1. The row is appended with id `nextId` and the exact fields, even empty ones. This id was never issued before and is above every id issued before. The counter moves up by one. |
| `Store.Table.DeleteWhere` | app.py:130-136 | The table becomes the rows the clause does not select, in their old order. rowcount is the number of selected rows. rowcount is 0 exactly when no row matches, and then the table is unchanged. A row survives exactly when it was present and is not selected. The id counter is unchanged. |
| `Store.Table.UpdateWhereId` | app.py:165-168 | Every row whose id matches the token gets the new name, position and email. rowcount is the number of matching rows. It is 0 exactly when no id matches, and then the table is unchanged. Ids and the counter are unchanged. |
| `App.Home` | app.py:58-66 | Redirects to the admin view if and only if `nm` is exactly `"Admin"`. Otherwise returns the fixed "not an admin" fragment. |
| `App.AddData` | app.py:90-117 | If any field is empty, returns the inline "Please input Non Null Data" fragment and changes no rows, counter or issued ids. Otherwise appends exactly one row with a fresh id above all earlier ids and the given fields, records that id as issued, moves the counter up by one, then redirects to `display_data`. |
| `App.DeleteData` | app.py:121-149 | If the token matches the id of row k, exactly row k is removed and any other row with that name survives. If no id matches but a name does, every row with that name is removed. Either way the handler redirects. If nothing matches, the table is unchanged and the response is "No data found with ID or Name: {token}". |
| `App.UpdateData` | app.py:152-189 | If no id matches, the table is unchanged and the response is "No data found with ID: {token}". If row k matches, the table becomes the old table with row k replaced by the same id and exactly the new fields, and the handler redirects. The doubled update leaves the same table as one update. |
| `Employees.LeadingZeroMatchesSameId` | app.py:130 | Putting a leading zero on a non-empty token does not change which id it selects, so `"01"` and `"1"` pick the same row. |
| `Employees.CountZeroIffNoMatch` | app.py:133-139 | A statement's rowcount is 0 if and only if no row satisfies its WHERE clause. |
| `Employees.WithoutSize` | app.py:130-136 | A DELETE removes exactly rowcount rows. |
| `Employees.WithoutMembership` | app.py:136 | A row is in the table after a DELETE if and only if it was there before and the clause does not select it. |
| `Employees.WithoutNoMatch` | app.py:139-144 | A DELETE that selects no row leaves the table exactly as it was. |
| `Employees.WithoutIncreasing` | app.py:22 | Deleting keeps the surviving rows' ids strictly increasing. This is the order the AUTOINCREMENT key gives them. |
| `Employees.WithoutSingleId` | app.py:130-133 | Under distinct ids, a token matching the id of row k removes row k alone, with rowcount 1. The rows before and after it stay in order. |
| `Employees.SetWhereIdAt` | app.py:165-168 | The UPDATE row by row. Same length. A row whose id matches becomes `(same id, new name, new position, new email)`. Every other row is unchanged. |
| `Employees.SetWhereIdIdempotent` | app.py:179-184 | Running the same UPDATE a second time gives the table that one run gives. |
| `Employees.SetWhereIdKeepsIds` | app.py:165-168 | An UPDATE keeps each row's id in place, so ids stay strictly increasing. |
| `Employees.SetWhereIdNoMatch` | app.py:173-178 | An UPDATE whose id matches no row leaves the table unchanged. |
| `Employees.SetWhereIdSingle` | app.py:165-168 | Under distinct ids, a token matching the id of row k rewrites only row k, keeping its id. |

## Left out

- The view layer is left out: Flask routing, `render_template`, the HTML templates, and the bodies of `GET /`, `/admin` and `/display_data`, which only render views (app.py:67-87). A redirect is represented only by its target endpoint.
- Missing form fields are not modelled. The handlers index `request.form[...]`, and Flask answers 400 when a field is absent. The model assumes all fields are present.
- Restarting against an existing `database.db` is not modelled as a separate step. `CREATE TABLE IF NOT EXISTS` then keeps the rows and the AUTOINCREMENT counter, which the model represents by the same `Table` object living on; the constructor covers only a fresh file.
- The SQLite connection lifecycle is left out: `connect`, `commit`, `close` and the file `database.db`. Storage failures are fatal in the source and are not modelled. When delete finds nothing, the source returns without committing. Nothing changed in that case, so the model shows no difference.
- `TokenMatchesId` covers only non-empty all-digit tokens. The model does not treat other SQLite affinity conversions as id matches, such as surrounding spaces, signs, or `"1.0"`.
- Inline fragments keep their text and the back button. The source's line breaks and indentation between them are not kept.
- AUTOINCREMENT's upper limit (2^63 - 1, after which SQLite refuses inserts) is not modelled. Ids are unbounded naturals.
- Order of `SELECT *` without `ORDER BY` is taken to be insertion order.
- Concurrent requests and server start-up (app.py:192-193) are left out.
