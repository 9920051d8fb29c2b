/** The database behind the HTTP routes and the route handlers that read and
    change it: sign-up and login, the chatbot, the generic admin tables, the
    teacher accounts and the uploaded notes. */
module Campus {
  import opened Strings
  import opened Sequences
  import opened Schema
  import opened SqlInsert
  import Chatbot

  /** The HTTP status of a reply and the `message` of its JSON body. */
  datatype Response = Response(status: int, message: string)

  /** What the upload middleware leaves in `req.file`: the client's file name
      and the name the file was stored under. */
  datatype Upload = Upload(originalName: string, storedName: string)

  /** JavaScript truthiness of a body field that is either absent or a string. */
  predicate Truthy(f: Option<string>)
  {
    f.Some? && f.value != ""
  }

  // ---------------------------------------------------------------------------
  // Row ids

  /** The ids are positive, no larger than the table's AUTOINCREMENT counter,
      and strictly increasing in table order. */
  predicate IdsAscending<T>(s: seq<T>, id: T -> int, last: int)
  {
    && (forall k :: 0 <= k < |s| ==> 1 <= id(s[k]) <= last)
    && Pairwise(s, (a: T, b: T) => id(a) < id(b))
  }

  /** An AUTOINCREMENT insert: the new row takes the counter's next value,
      which no row in the table has. */
  lemma AppendNextId<T>(s: seq<T>, id: T -> int, last: int, x: T)
    requires IdsAscending(s, id, last) && 0 <= last
    requires id(x) == last + 1
    ensures IdsAscending(s + [x], id, last + 1)
    ensures forall k :: 0 <= k < |s| ==> id(s[k]) != id(x)
  {
    var r := s + [x];
    forall k | 0 <= k < |r| ensures 1 <= id(r[k]) <= last + 1 {
      if k < |s| {
        assert r[k] == s[k];
      } else {
        assert r[k] == x;
      }
    }
    forall i, j | 0 <= i < j < |r| ensures id(r[i]) < id(r[j]) {
      if j < |s| {
        assert r[i] == s[i] && r[j] == s[j];
      } else {
        assert r[i] == s[i] && r[j] == x;
      }
    }
  }

  /** A DELETE keeps the ids ascending and below the counter. */
  lemma FilterKeepsIds<T>(s: seq<T>, id: T -> int, last: int, p: T -> bool)
    requires IdsAscending(s, id, last)
    ensures IdsAscending(Filter(s, p), id, last)
  {
    FilterPairwise(s, p, (a: T, b: T) => id(a) < id(b));
    var r := Filter(s, p);
    forall k | 0 <= k < |r| ensures 1 <= id(r[k]) <= last {
      var j :| 0 <= j < |s| && s[j] == r[k];
    }
  }

  // ---------------------------------------------------------------------------
  // Users

  /** Some account already uses `email` (the UNIQUE constraint on `users.email`). */
  predicate EmailTaken(users: seq<User>, email: string)
  {
    exists k :: 0 <= k < |users| && users[k].email == email
  }

  predicate UniqueEmails(users: seq<User>)
  {
    Pairwise(users, (a: User, b: User) => a.email != b.email)
  }

  predicate UsersValid(users: seq<User>, last: int)
  {
    IdsAscending(users, (u: User) => u.id, last) && UniqueEmails(users)
  }

  /** Adding an account with the next id and an unused email keeps the table valid. */
  lemma AddUserKeepsValid(users: seq<User>, last: int, u: User)
    requires UsersValid(users, last) && 0 <= last
    requires u.id == last + 1 && !EmailTaken(users, u.email)
    ensures UsersValid(users + [u], last + 1)
  {
    AppendNextId(users, (x: User) => x.id, last, u);
    var r := users + [u];
    forall i, j | 0 <= i < j < |r| ensures r[i].email != r[j].email {
      if j < |users| {
        assert r[i] == users[i] && r[j] == users[j];
      } else {
        assert r[i] == users[i] && r[j] == u;
      }
    }
  }

  /** The row `SELECT * FROM users WHERE email = ? AND password = ? AND role = ?`
      matches; an absent field binds NULL, which equals nothing. */
  predicate Matches(u: User, email: Option<string>, password: Option<string>, role: Option<string>)
  {
    email == Some(u.email) && password == Some(u.password) && role == Some(u.role)
  }

  /** `db.get`: the first matching row, if any. */
  function FindUser(users: seq<User>, email: Option<string>, password: Option<string>,
                    role: Option<string>): (r: Option<User>)
    ensures r.Some? ==> r.value in users && Matches(r.value, email, password, role)
    ensures r.None? ==> forall k :: 0 <= k < |users| ==> !Matches(users[k], email, password, role)
  {
    if users == [] then None
    else if Matches(users[0], email, password, role) then Some(users[0])
    else FindUser(users[1..], email, password, role)
  }

  /** Emails are unique, so the login lookup finds exactly the account whose
      email, password and role all match. */
  lemma {:induction false} LoginFindsTheAccount(users: seq<User>, u: User, password: string, role: string)
    requires UniqueEmails(users)
    ensures FindUser(users, Some(u.email), Some(password), Some(role)) == Some(u)
        <==> u in users && u.password == password && u.role == role
    decreases |users|
  {
    if users != [] && users[0] != u {
      assert UniqueEmails(users[1..]) by {
        forall i, j | 0 <= i < j < |users[1..]| ensures users[1..][i].email != users[1..][j].email {
          assert users[1..][i] == users[i + 1] && users[1..][j] == users[j + 1];
        }
      }
      LoginFindsTheAccount(users[1..], u, password, role);
    }
  }

  /** The user object sent back after login: every column of the row except `password`. */
  function Public(u: User): (m: map<string, Value>)
    ensures m.Keys == {"id", "name", "email", "role", "program", "section"}
    ensures "password" !in m
    ensures forall k :: k in m ==> m[k] == UserObject(u)[k]
  {
    UserObject(u) - {"password"}
  }

  /** `role = 'teacher'`. */
  predicate IsTeacher(u: User)
  {
    u.role == "teacher"
  }

  /** The teacher accounts, in table order. */
  function TeacherAccounts(users: seq<User>): seq<User>
  {
    Filter(users, IsTeacher)
  }

  /** `SELECT id, name, email FROM users WHERE role = 'teacher'`: one entry per
      teacher account, in table order, holding its id, name and email. */
  function Teachers(users: seq<User>): (r: seq<(int, string, string)>)
    ensures |r| == |TeacherAccounts(users)|
    ensures forall k :: 0 <= k < |r| ==>
              r[k] == (TeacherAccounts(users)[k].id, TeacherAccounts(users)[k].name, TeacherAccounts(users)[k].email)
  {
    var staff := TeacherAccounts(users);
    seq(|staff|, k requires 0 <= k < |staff| => (staff[k].id, staff[k].name, staff[k].email))
  }

  /** The teacher list is taken from the teacher accounts, in table order, and
      names every one of them and no other account. */
  lemma TeachersExactly(users: seq<User>)
    ensures IsSubsequence(TeacherAccounts(users), users)
    ensures forall k :: 0 <= k < |Teachers(users)| ==>
              exists u :: u in users && IsTeacher(u) && Teachers(users)[k] == (u.id, u.name, u.email)
    ensures forall u :: u in users && IsTeacher(u) ==> (u.id, u.name, u.email) in Teachers(users)
  {
    var staff := TeacherAccounts(users);
    var r := Teachers(users);
    FilterIsSubsequence(users, IsTeacher);
    forall k | 0 <= k < |r|
      ensures exists u :: u in users && IsTeacher(u) && r[k] == (u.id, u.name, u.email)
    {
      var u := staff[k];
      assert u in users && IsTeacher(u);
      assert r[k] == (u.id, u.name, u.email);
    }
    forall u | u in users && IsTeacher(u) ensures (u.id, u.name, u.email) in r {
      var i :| 0 <= i < |users| && users[i] == u;
      assert u in staff;
      var j :| 0 <= j < |staff| && staff[j] == u;
      assert r[j] == (u.id, u.name, u.email);
    }
  }

  /** `DELETE FROM users WHERE id = ? AND role = 'teacher'`. */
  function WithoutTeacher(users: seq<User>, id: int): seq<User>
  {
    Filter(users, (u: User) => !(u.id == id && u.role == "teacher"))
  }

  /** A teacher delete removes only the teacher account with that id; students,
      admins and other teachers stay, in their order. */
  lemma TeacherDeleteSparesOthers(users: seq<User>, id: int)
    ensures forall u :: u in WithoutTeacher(users, id) <==> u in users && !(u.id == id && u.role == "teacher")
    ensures IsSubsequence(WithoutTeacher(users, id), users)
  {
    FilterIsSubsequence(users, (u: User) => !(u.id == id && u.role == "teacher"));
  }

  /** A successful sign-up can log in at once, as a student and with the same password. */
  lemma SignupThenLogin(users: seq<User>, last: int, u: User)
    requires UsersValid(users, last) && 0 <= last
    requires u.id == last + 1 && !EmailTaken(users, u.email)
    ensures FindUser(users + [u], Some(u.email), Some(u.password), Some(u.role)) == Some(u)
  {
    AddUserKeepsValid(users, last, u);
    LoginFindsTheAccount(users + [u], u, u.password, u.role);
  }

  // ---------------------------------------------------------------------------
  // The generic admin tables

  /** Why SQLite refuses the statement built from a body: no columns at all
      (`INSERT INTO t () VALUES ()` does not parse), a property naming no
      column, or a NOT NULL column left NULL. */
  datatype Failure = SyntaxError | UnknownColumn(column: string) | NotNullFailed(column: string)

  /** The first of `columns` that `t` does not have. */
  function FirstUnknown(t: AdminTable, columns: seq<string>): Option<string>
  {
    if columns == [] then None
    else if columns[0] !in Columns(t) then Some(columns[0])
    else FirstUnknown(t, columns[1..])
  }

  /** The statement names no unknown column exactly when every property is a
      column; a reported column is one of the body's and not the table's. */
  lemma {:induction false} FirstUnknownSpec(t: AdminTable, columns: seq<string>)
    ensures FirstUnknown(t, columns).None? <==> forall k :: 0 <= k < |columns| ==> columns[k] in Columns(t)
    ensures FirstUnknown(t, columns).Some? ==>
              FirstUnknown(t, columns).value in columns && FirstUnknown(t, columns).value !in Columns(t)
    decreases |columns|
  {
    if columns != [] && columns[0] in Columns(t) {
      FirstUnknownSpec(t, columns[1..]);
      assert forall k :: 1 <= k < |columns| ==> columns[k] == columns[1..][k - 1];
    }
  }

  /** The first of `required`, in declaration order, that the body leaves NULL. */
  function FirstNull(required: seq<string>, body: Body): Option<string>
  {
    if required == [] then None
    else if Lookup(body, required[0]) == Null then Some(required[0])
    else FirstNull(required[1..], body)
  }

  /** No NOT NULL column is left NULL exactly when each of them receives text;
      a reported column is one of them and is left NULL. */
  lemma {:induction false} FirstNullSpec(required: seq<string>, body: Body)
    ensures FirstNull(required, body).None? <==> forall k :: 0 <= k < |required| ==> Lookup(body, required[k]).Str?
    ensures FirstNull(required, body).Some? ==>
              FirstNull(required, body).value in required && Lookup(body, FirstNull(required, body).value) == Null
    decreases |required|
  {
    if required != [] && Lookup(body, required[0]) != Null {
      FirstNullSpec(required[1..], body);
      assert forall k :: 1 <= k < |required| ==> required[k] == required[1..][k - 1];
    }
  }

  /** The statement built for table `t` has one `?` parameter per value it
      binds, when no property name contains `?`: the engine never sees a
      binding count that differs from the parameter count. */
  lemma OneParameterPerValue(t: AdminTable, body: Body)
    requires forall k :: 0 <= k < |body| ==> Free(body[k].0, '?')
    ensures Count(InsertSql(TableName(t), Keys(body)), '?') == |Values(body)|
  {
    match t {
      case Timetables => assert Free(TableName(t), '?');
      case Schedules => assert Free(TableName(t), '?');
      case Events => assert Free(TableName(t), '?');
      case Contacts => assert Free(TableName(t), '?');
    }
    OnePlaceholderPerColumn(TableName(t), Keys(body));
  }

  /** The engine's verdict on `InsertSql(TableName(t), Keys(body))` bound to `Values(body)`. */
  function InsertFailure(t: AdminTable, body: Body): Option<Failure>
  {
    if body == [] then Some(SyntaxError)
    else match FirstUnknown(t, Keys(body))
      case Some(c) => Some(UnknownColumn(c))
      case None =>
        match FirstNull(Required(t), body)
        case Some(c) => Some(NotNullFailed(c))
        case None => None
  }

  /** The row the statement stores: every column the body names gets the bound
      value, every other column its default, NULL. */
  function NewRow(t: AdminTable, id: int, body: Body): Row
  {
    Row(id, map c | c in Columns(t) :: Bound(Keys(body), Values(body), c))
  }

  /** An insert succeeds exactly when the body is non-empty, every property
      names a column of the table, and every NOT NULL column gets text. */
  lemma InsertAccepted(t: AdminTable, body: Body)
    ensures InsertFailure(t, body).None?
        <==> && body != []
             && (forall k :: 0 <= k < |body| ==> body[k].0 in Columns(t))
             && (forall c :: c in Required(t) ==> Lookup(body, c).Str?)
  {
    FirstUnknownSpec(t, Keys(body));
    FirstNullSpec(Required(t), body);
    if body != [] && FirstUnknown(t, Keys(body)).None? {
      forall k | 0 <= k < |body| ensures body[k].0 in Columns(t) {
        assert Keys(body)[k] == body[k].0;
      }
    }
    if body != [] && (forall k :: 0 <= k < |body| ==> body[k].0 in Columns(t)) {
      assert forall k :: 0 <= k < |Keys(body)| ==> Keys(body)[k] in Columns(t);
    }
  }

  /** An accepted insert stores a well-formed row holding the body's values
      under their property names and NULL in the columns the body leaves out. */
  lemma InsertedRow(t: AdminTable, id: int, body: Body)
    requires DistinctKeys(body)
    requires InsertFailure(t, body).None?
    ensures WellFormed(t, NewRow(t, id, body))
    ensures forall k :: 0 <= k < |body| ==> body[k].0 in NewRow(t, id, body).cells
    ensures forall k :: 0 <= k < |body| ==> NewRow(t, id, body).cells[body[k].0] == body[k].1
    ensures forall c :: c in Columns(t) && (forall k :: 0 <= k < |body| ==> body[k].0 != c)
              ==> NewRow(t, id, body).cells[c] == Null
  {
    InsertAccepted(t, body);
    var r := NewRow(t, id, body);
    forall c | c in Columns(t) ensures r.cells[c] == Lookup(body, c) {
      BindingFollowsBody(body, c);
    }
    forall k | 0 <= k < |body| ensures r.cells[body[k].0] == body[k].1 {
      LookupAt(body, k);
    }
    forall c | c in Columns(t) && (forall k :: 0 <= k < |body| ==> body[k].0 != c) ensures r.cells[c] == Null {
      LookupMissing(body, c);
    }
    forall c | c in Required(t) ensures c in r.cells && r.cells[c].Str? {
      assert c in Columns(t);
    }
  }

  /** A stored row of an admin table: well-formed, with ascending ids. */
  predicate TableValid(t: AdminTable, rows: seq<Row>, last: int)
  {
    && IdsAscending(rows, (r: Row) => r.id, last)
    && (forall k :: 0 <= k < |rows| ==> WellFormed(t, rows[k]))
  }

  /** An accepted insert keeps the table valid. */
  lemma RowInsert(t: AdminTable, rows: seq<Row>, last: int, body: Body)
    requires TableValid(t, rows, last) && 0 <= last
    requires DistinctKeys(body) && InsertFailure(t, body).None?
    ensures TableValid(t, rows + [NewRow(t, last + 1, body)], last + 1)
  {
    var row := NewRow(t, last + 1, body);
    InsertedRow(t, last + 1, body);
    AppendNextId(rows, (r: Row) => r.id, last, row);
    var r := rows + [row];
    forall k | 0 <= k < |r| ensures WellFormed(t, r[k]) {
      if k < |rows| {
        assert r[k] == rows[k];
      }
    }
  }

  /** Every admin table is present, with its counter, and valid. */
  predicate TablesValid(items: map<AdminTable, seq<Row>>, counters: map<AdminTable, nat>)
  {
    forall t: AdminTable :: t in items && t in counters && TableValid(t, items[t], counters[t])
  }

  /** Replacing one table by a valid one keeps all of them valid. */
  lemma ReplaceTable(items: map<AdminTable, seq<Row>>, counters: map<AdminTable, nat>,
                     t: AdminTable, rows: seq<Row>, last: nat)
    requires TablesValid(items, counters)
    requires TableValid(t, rows, last)
    ensures TablesValid(items[t := rows], counters[t := last])
  {
  }

  /** `DELETE FROM <table> WHERE id = ?`. */
  function WithoutRow(rows: seq<Row>, id: int): seq<Row>
  {
    Filter(rows, (r: Row) => r.id != id)
  }

  /** A row delete removes the row with that id and keeps the table valid;
      with no such row the table is unchanged. */
  lemma RowDelete(t: AdminTable, rows: seq<Row>, last: int, id: int)
    requires TableValid(t, rows, last)
    ensures TableValid(t, WithoutRow(rows, id), last)
    ensures forall r :: r in WithoutRow(rows, id) <==> r in rows && r.id != id
    ensures (forall k :: 0 <= k < |rows| ==> rows[k].id != id) ==> WithoutRow(rows, id) == rows
  {
    FilterKeepsIds(rows, (r: Row) => r.id, last, (r: Row) => r.id != id);
    var kept := WithoutRow(rows, id);
    forall k | 0 <= k < |kept| ensures WellFormed(t, kept[k]) {
      var j :| 0 <= j < |rows| && rows[j] == kept[k];
    }
    if forall k :: 0 <= k < |rows| ==> rows[k].id != id {
      FilterAll(rows, (r: Row) => r.id != id);
    }
  }

  lemma {:induction false} FilterAll<T>(s: seq<T>, p: T -> bool)
    requires forall k :: 0 <= k < |s| ==> p(s[k])
    ensures Filter(s, p) == s
    decreases |s|
  {
    if s != [] {
      FilterAll(s[1..], p);
    }
  }

  // ---------------------------------------------------------------------------
  // Notes

  /** `DELETE FROM notes WHERE id = ?`. */
  function WithoutNote(notes: seq<Note>, id: int): seq<Note>
  {
    Filter(notes, (n: Note) => n.id != id)
  }

  /** A note delete removes only that note row, keeping the others in order. */
  lemma NoteDeleteSparesOthers(notes: seq<Note>, id: int)
    ensures forall n :: n in WithoutNote(notes, id) <==> n in notes && n.id != id
    ensures IsSubsequence(WithoutNote(notes, id), notes)
  {
    FilterIsSubsequence(notes, (n: Note) => n.id != id);
  }

  // ---------------------------------------------------------------------------
  // The store

  class CampusStore {
    var users: seq<User>
    var userSeq: nat
    var items: map<AdminTable, seq<Row>>
    var itemSeq: map<AdminTable, nat>
    var notes: seq<Note>
    var noteSeq: nat

    ghost predicate Valid()
      reads this
    {
      && UsersValid(users, userSeq)
      && TablesValid(items, itemSeq)
      && IdsAscending(notes, (n: Note) => n.id, noteSeq)
    }

    /** The database on first start: empty tables and the default admin account. */
    constructor ()
      ensures Valid()
      ensures users == [User(1, "Admin User", "admin@campus.com", "admin123", "admin", None, None)]
      ensures forall t: AdminTable :: items[t] == []
      ensures notes == []
      ensures userSeq == 1 && noteSeq == 0
      ensures forall t: AdminTable :: itemSeq[t] == 0
    {
      users := [User(1, "Admin User", "admin@campus.com", "admin123", "admin", None, None)];
      userSeq := 1;
      items := map[Timetables := [], Schedules := [], Events := [], Contacts := []];
      itemSeq := map[Timetables := 0, Schedules := 0, Events := 0, Contacts := 0];
      notes := [];
      noteSeq := 0;
      new;
      forall t: AdminTable ensures t in items && t in itemSeq && TableValid(t, items[t], itemSeq[t]) {
        match t
        case Timetables =>
        case Schedules =>
        case Events =>
        case Contacts =>
      }
    }

    /** POST /signup: every field must be a non-empty string; the account is a
        student account with the next id, refused when the email is taken. */
    method Signup(name: Option<string>, email: Option<string>, password: Option<string>,
                  program: Option<string>, section: Option<string>) returns (resp: Response)
      requires Valid()
      modifies this
      ensures Valid()
      ensures items == old(items) && itemSeq == old(itemSeq) && notes == old(notes) && noteSeq == old(noteSeq)
      ensures !(Truthy(name) && Truthy(email) && Truthy(password) && Truthy(program) && Truthy(section)) ==>
                resp == Response(400, "All fields are required for signup.")
                && users == old(users) && userSeq == old(userSeq)
      ensures Truthy(name) && Truthy(email) && Truthy(password) && Truthy(program) && Truthy(section) ==>
                if EmailTaken(old(users), email.value) then
                  resp == Response(400, "Email already exists.") && users == old(users) && userSeq == old(userSeq)
                else
                  && resp == Response(201, "Student account created successfully.")
                  && userSeq == old(userSeq) + 1
                  && users == old(users) + [User(userSeq, name.value, email.value, password.value, "student",
                                                 program, section)]
    {
      if !(Truthy(name) && Truthy(email) && Truthy(password) && Truthy(program) && Truthy(section)) {
        return Response(400, "All fields are required for signup.");
      }
      if EmailTaken(users, email.value) {
        return Response(400, "Email already exists.");
      }
      var u := User(userSeq + 1, name.value, email.value, password.value, "student", program, section);
      AddUserKeepsValid(users, userSeq, u);
      users := users + [u];
      userSeq := userSeq + 1;
      resp := Response(201, "Student account created successfully.");
    }

    /** POST /login: the account matching all three fields, sent back without its password. */
    method Login(email: Option<string>, password: Option<string>, role: Option<string>)
      returns (resp: Response, user: Option<map<string, Value>>)
      requires Valid()
      ensures user.None? <==> forall k :: 0 <= k < |users| ==> !Matches(users[k], email, password, role)
      ensures user.None? ==> resp == Response(401, "Invalid credentials or role.")
      ensures user.Some? ==> resp == Response(200, "Login successful")
                             && exists u :: u in users && Matches(u, email, password, role) && user.value == Public(u)
    {
      match FindUser(users, email, password, role)
      case None =>
        resp, user := Response(401, "Invalid credentials or role."), None;
      case Some(u) =>
        resp, user := Response(200, "Login successful"), Some(Public(u));
    }

    /** POST /ask: the chatbot reply over the current tables. */
    method Ask(query: string, program: string, section: string) returns (reply: string)
      requires Valid()
      ensures reply == Chatbot.Answer(query, program, section, items[Timetables], items[Schedules],
                                      items[Contacts], items[Events], notes)
    {
      reply := Chatbot.Answer(query, program, section, items[Timetables], items[Schedules],
                              items[Contacts], items[Events], notes);
    }

    /** POST /api/<table>: the statement built from the body either fails,
        with the engine's message after a fixed prefix, or appends the row. */
    method InsertItem(t: AdminTable, body: Body, engine: Failure -> string) returns (resp: Response)
      requires Valid()
      requires DistinctKeys(body)
      requires forall k :: 0 <= k < |body| ==> body[k].0 != "id"
      modifies this
      ensures Valid()
      ensures users == old(users) && userSeq == old(userSeq) && notes == old(notes) && noteSeq == old(noteSeq)
      ensures InsertFailure(t, body).Some? ==>
                resp == Response(400, "Failed to add item. " + engine(InsertFailure(t, body).value))
                && items == old(items) && itemSeq == old(itemSeq)
      ensures InsertFailure(t, body).None? ==>
                && resp == Response(201, "Item added successfully.")
                && itemSeq == old(itemSeq)[t := old(itemSeq)[t] + 1]
                && items == old(items)[t := old(items)[t] + [NewRow(t, old(itemSeq)[t] + 1, body)]]
    {
      var failure := InsertFailure(t, body);
      if failure.Some? {
        return Response(400, "Failed to add item. " + engine(failure.value));
      }
      RowInsert(t, items[t], itemSeq[t], body);
      Append(t, NewRow(t, itemSeq[t] + 1, body));
      resp := Response(201, "Item added successfully.");
    }

    /** Appends a row that keeps the table valid and advances its counter. */
    method Append(t: AdminTable, row: Row)
      requires Valid()
      requires TableValid(t, items[t] + [row], itemSeq[t] + 1)
      modifies this
      ensures Valid()
      ensures items == old(items)[t := old(items)[t] + [row]] && itemSeq == old(itemSeq)[t := old(itemSeq)[t] + 1]
      ensures users == old(users) && userSeq == old(userSeq) && notes == old(notes) && noteSeq == old(noteSeq)
    {
      ReplaceTable(items, itemSeq, t, items[t] + [row], itemSeq[t] + 1);
      items, itemSeq := items[t := items[t] + [row]], itemSeq[t := itemSeq[t] + 1];
    }

    /** DELETE /api/<table>/:id: always answers success. */
    method DeleteItem(t: AdminTable, id: int) returns (resp: Response)
      requires Valid()
      modifies this
      ensures Valid()
      ensures resp == Response(200, "Deleted successfully.")
      ensures items == old(items)[t := WithoutRow(old(items)[t], id)]
      ensures itemSeq == old(itemSeq) && users == old(users) && userSeq == old(userSeq)
      ensures notes == old(notes) && noteSeq == old(noteSeq)
    {
      RowDelete(t, items[t], itemSeq[t], id);
      ReplaceTable(items, itemSeq, t, WithoutRow(items[t], id), itemSeq[t]);
      assert itemSeq[t := itemSeq[t]] == itemSeq;
      items := items[t := WithoutRow(items[t], id)];
      resp := Response(200, "Deleted successfully.");
    }

    /** POST /api/teachers: a teacher account with no program or section; fails
        only when a field is absent (NOT NULL) or the email is taken. */
    method AddTeacher(name: Option<string>, email: Option<string>, password: Option<string>)
      returns (resp: Response)
      requires Valid()
      modifies this
      ensures Valid()
      ensures items == old(items) && itemSeq == old(itemSeq) && notes == old(notes) && noteSeq == old(noteSeq)
      ensures if name.None? || email.None? || password.None? || EmailTaken(old(users), email.value) then
                && resp == Response(400, "Failed to add teacher. Email might already exist.")
                && users == old(users) && userSeq == old(userSeq)
              else
                && resp == Response(201, "Teacher added successfully.")
                && userSeq == old(userSeq) + 1
                && users == old(users) + [User(userSeq, name.value, email.value, password.value, "teacher",
                                               None, None)]
    {
      if name.None? || email.None? || password.None? || EmailTaken(users, email.value) {
        return Response(400, "Failed to add teacher. Email might already exist.");
      }
      var u := User(userSeq + 1, name.value, email.value, password.value, "teacher", None, None);
      AddUserKeepsValid(users, userSeq, u);
      users := users + [u];
      userSeq := userSeq + 1;
      resp := Response(201, "Teacher added successfully.");
    }

    /** DELETE /api/teachers/:id: always answers success. */
    method DeleteTeacher(id: int) returns (resp: Response)
      requires Valid()
      modifies this
      ensures Valid()
      ensures resp == Response(200, "Teacher deleted.")
      ensures users == WithoutTeacher(old(users), id) && userSeq == old(userSeq)
      ensures items == old(items) && itemSeq == old(itemSeq) && notes == old(notes) && noteSeq == old(noteSeq)
    {
      var p := (u: User) => !(u.id == id && u.role == "teacher");
      FilterKeepsIds(users, (u: User) => u.id, userSeq, p);
      FilterPairwise(users, p, (a: User, b: User) => a.email != b.email);
      users := WithoutTeacher(users, id);
      resp := Response(200, "Teacher deleted.");
    }

    /** POST /api/notes: a file and a non-empty course name and teacher id are
        required; the note records both file names. */
    method AddNote(file: Option<Upload>, courseName: Option<string>, teacherId: Option<string>)
      returns (resp: Response)
      requires Valid()
      modifies this
      ensures Valid()
      ensures users == old(users) && userSeq == old(userSeq) && items == old(items) && itemSeq == old(itemSeq)
      ensures file.None? ==>
                resp == Response(400, "No PDF file was uploaded.") && notes == old(notes) && noteSeq == old(noteSeq)
      ensures file.Some? && !(Truthy(courseName) && Truthy(teacherId)) ==>
                resp == Response(400, "Course name and teacher ID are required.")
                && notes == old(notes) && noteSeq == old(noteSeq)
      ensures file.Some? && Truthy(courseName) && Truthy(teacherId) ==>
                && resp == Response(201, "PDF uploaded successfully.")
                && noteSeq == old(noteSeq) + 1
                && notes == old(notes) + [Note(noteSeq, courseName.value, file.value.originalName,
                                               file.value.storedName, teacherId.value)]
    {
      if file.None? {
        return Response(400, "No PDF file was uploaded.");
      }
      if !(Truthy(courseName) && Truthy(teacherId)) {
        return Response(400, "Course name and teacher ID are required.");
      }
      var n := Note(noteSeq + 1, courseName.value, file.value.originalName, file.value.storedName, teacherId.value);
      AppendNextId(notes, (x: Note) => x.id, noteSeq, n);
      notes := notes + [n];
      noteSeq := noteSeq + 1;
      resp := Response(201, "PDF uploaded successfully.");
    }

    /** DELETE /api/notes/:id: removes the record only; always answers success. */
    method DeleteNote(id: int) returns (resp: Response)
      requires Valid()
      modifies this
      ensures Valid()
      ensures resp == Response(200, "Note deleted successfully.")
      ensures notes == WithoutNote(old(notes), id) && noteSeq == old(noteSeq)
      ensures users == old(users) && userSeq == old(userSeq) && items == old(items) && itemSeq == old(itemSeq)
    {
      FilterKeepsIds(notes, (n: Note) => n.id, noteSeq, (n: Note) => n.id != id);
      notes := WithoutNote(notes, id);
      resp := Response(200, "Note deleted successfully.");
    }
  }
}
