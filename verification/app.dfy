/** The request handlers: the login check and the three form handlers that
    change the employees table. Each handler returns either a redirect to
    another view or an inline HTML fragment (served with status 200). */
module App {
  import opened Employees
  import opened Store

  /** The views a handler redirects to (`url_for` endpoint names). */
  datatype Endpoint = Admin | DisplayData

  datatype Response = Redirect(target: Endpoint) | Inline(message: string)

  /** The "back" button every inline failure message carries. */
  const BACK_BUTTON: string :=
    "<form id=\"logout_button\" action=\"/display_data\" method=\"get\"><p><input type=\"submit\" value='back'/></p></form>"

  const NOT_ADMIN_MESSAGE: string := "<h3>Oops, sorry you are not an admin</h3>"

  const NON_NULL_MESSAGE: string := "Please input Non Null Data " + BACK_BUTTON

  function DeleteNotFoundMessage(token: string): string {
    "No data found with ID or Name: " + token + BACK_BUTTON
  }

  function UpdateNotFoundMessage(token: string): string {
    "No data found with ID: " + token + BACK_BUTTON
  }

  /** `POST /`: the keyword login. Only the exact string "Admin" gets in;
      anything else gets the fixed refusal. */
  function Home(nm: string): (r: Response)
    ensures r == Redirect(Admin) <==> nm == "Admin"
    ensures r != Redirect(Admin) ==> r == Inline(NOT_ADMIN_MESSAGE)
  {
    if nm == "Admin" then Redirect(Admin) else Inline(NOT_ADMIN_MESSAGE)
  }

  /** `POST /add_data`: refuses any empty field; otherwise inserts one row. */
  method AddData(db: Table, name: string, position: string, email: string) returns (resp: Response)
    requires db.Valid()
    modifies db
    ensures db.Valid()
    ensures name == "" || position == "" || email == "" ==>
      resp == Inline(NON_NULL_MESSAGE) &&
      db.rows == old(db.rows) && db.nextId == old(db.nextId) && db.issued == old(db.issued)
    ensures name != "" && position != "" && email != "" ==>
      resp == Redirect(DisplayData) &&
      db.rows == old(db.rows) + [Employee(old(db.nextId), name, position, email)] &&
      old(db.nextId) !in old(db.issued) &&
      (forall id :: id in old(db.issued) ==> id < old(db.nextId)) &&
      db.nextId == old(db.nextId) + 1 && db.issued == old(db.issued) + {old(db.nextId)}
  {
    if name == "" || position == "" || email == "" {
      resp := Inline(NON_NULL_MESSAGE);
    } else {
      var _ := db.Insert(name, position, email);
      resp := Redirect(DisplayData);
    }
  }

  /** `POST /delete_data`: delete by id; only when that removes nothing,
      delete by name; when that removes nothing too, report the token. */
  method DeleteData(db: Table, token: string) returns (resp: Response)
    requires db.Valid()
    modifies db
    ensures db.Valid()
    ensures db.nextId == old(db.nextId) && db.issued == old(db.issued)
    ensures HasMatch(old(db.rows), ById(token)) ==>
      resp == Redirect(DisplayData) && db.rows == Without(old(db.rows), ById(token))
    ensures forall k :: 0 <= k < |old(db.rows)| && TokenMatchesId(token, old(db.rows)[k].id) ==>
      db.rows == old(db.rows)[..k] + old(db.rows)[k + 1..]
    ensures !HasMatch(old(db.rows), ById(token)) && HasMatch(old(db.rows), ByName(token)) ==>
      resp == Redirect(DisplayData) && db.rows == Without(old(db.rows), ByName(token))
    ensures !HasMatch(old(db.rows), ById(token)) && !HasMatch(old(db.rows), ByName(token)) ==>
      resp == Inline(DeleteNotFoundMessage(token)) && db.rows == old(db.rows)
  {
    ghost var before := db.rows;
    var n := db.DeleteWhere(ById(token));
    forall k | 0 <= k < |before| && TokenMatchesId(token, before[k].id)
      ensures db.rows == before[..k] + before[k + 1..]
    {
      WithoutSingleId(before, token, k);
    }
    if n == 0 {
      n := db.DeleteWhere(ByName(token));
      if n == 0 {
        resp := Inline(DeleteNotFoundMessage(token));
        return;
      }
    }
    resp := Redirect(DisplayData);
  }

  /** `POST /update_data`: update by id; on no match report the id, else run
      the identical update once more and redirect. */
  method UpdateData(db: Table, token: string, name: string, position: string, email: string) returns (resp: Response)
    requires db.Valid()
    modifies db
    ensures db.Valid()
    ensures db.nextId == old(db.nextId) && db.issued == old(db.issued)
    ensures !HasMatch(old(db.rows), ById(token)) ==>
      resp == Inline(UpdateNotFoundMessage(token)) && db.rows == old(db.rows)
    ensures HasMatch(old(db.rows), ById(token)) ==>
      resp == Redirect(DisplayData) && db.rows == SetWhereId(old(db.rows), token, name, position, email)
    ensures forall k :: 0 <= k < |old(db.rows)| && TokenMatchesId(token, old(db.rows)[k].id) ==>
      db.rows == old(db.rows)[k := Employee(old(db.rows)[k].id, name, position, email)]
  {
    ghost var before := db.rows;
    var n := db.UpdateWhereId(token, name, position, email);
    if n == 0 {
      resp := Inline(UpdateNotFoundMessage(token));
    } else {
      n := db.UpdateWhereId(token, name, position, email);
      SetWhereIdIdempotent(before, token, name, position, email);
      resp := Redirect(DisplayData);
    }
    forall k | 0 <= k < |before| && TokenMatchesId(token, before[k].id)
      ensures db.rows == before[k := Employee(before[k].id, name, position, email)]
    {
      SetWhereIdSingle(before, token, k, name, position, email);
    }
  }

  /** Two rows with ids 1 and 2, the second named "1": deleting "1" removes
      the row with id 1 and keeps the row named "1". */
  method IdPrecedenceScenario() {
    var db := new Table();
    var resp := AddData(db, "Alice", "Engineer", "a@x.com");
    resp := AddData(db, "1", "Clerk", "b@x.com");
    var alice, bob := Employee(1, "Alice", "Engineer", "a@x.com"), Employee(2, "1", "Clerk", "b@x.com");
    assert db.rows == [alice, bob];
    assert AllDigits("1") && DecimalValue("1") == 1;
    assert TokenMatchesId("1", db.rows[0].id);
    resp := DeleteData(db, "1");
    assert resp == Redirect(DisplayData) && db.rows == [bob];
  }

  /** A token that is neither an id nor a name leaves the table as it was
      and is echoed back in the message. */
  method NotFoundScenario() {
    var db := new Table();
    var resp := AddData(db, "1", "Clerk", "b@x.com");
    var bob := Employee(1, "1", "Clerk", "b@x.com");
    assert db.rows == [bob];
    assert !IsDigit("nobody"[0]) && !TokenMatchesId("nobody", 1);
    assert !HasMatch(db.rows, ById("nobody")) && !HasMatch(db.rows, ByName("nobody"));
    resp := DeleteData(db, "nobody");
    assert db.rows == [bob] && resp == Inline(DeleteNotFoundMessage("nobody"));
  }

  /** Insert, then update the new row: the listing shows only the updated
      fields, and a fresh insert after a delete does not reuse the id. */
  method InsertUpdateScenario() {
    var db := new Table();
    var resp := AddData(db, "Alice", "Engineer", "a@x.com");
    assert DecimalValue("1") == 1 && TokenMatchesId("1", db.rows[0].id);
    resp := UpdateData(db, "1", "Alicia", "Manager", "");
    var all := db.GetEmployees();
    assert all == [Employee(1, "Alicia", "Manager", "")];
    resp := DeleteData(db, "Alicia");
    assert db.rows == [];
    resp := AddData(db, "Bob", "Clerk", "b@x.com");
    assert db.rows == [Employee(2, "Bob", "Clerk", "b@x.com")];
  }
}
