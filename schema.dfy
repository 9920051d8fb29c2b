/** The tables of database.js as the handlers see them: the four admin tables
    as generic rows of named columns, the users and notes tables as records. */
module Schema {

  datatype Option<T> = None | Some(value: T)

  /** A value in one of the four admin tables, or in a request body bound for
      one: text, or SQL NULL (JSON `null`). */
  datatype Cell = Str(s: string) | Null

  /** A row of an admin table as `SELECT *` returns it: its id and its other columns. */
  datatype Row = Row(id: int, cells: map<string, Cell>)

  /** How a JavaScript template literal renders a row property: text as itself,
      NULL as "null", a property the row lacks as "undefined". */
  function Show(r: Row, column: string): string
  {
    if column !in r.cells then "undefined"
    else match r.cells[column]
      case Str(s) => s
      case Null => "null"
  }

  /** The tables served by the generic admin routes. */
  datatype AdminTable = Timetables | Schedules | Events | Contacts

  /** The table each set of admin routes is mounted on. */
  function TableName(t: AdminTable): string
  {
    match t
    case Timetables => "timetables"
    case Schedules => "schedules"
    case Events => "events"
    case Contacts => "contacts"
  }

  /** The columns other than `id`, in declaration order. */
  function Columns(t: AdminTable): seq<string>
  {
    match t
    case Timetables => ["program", "section", "course", "day", "time", "room"]
    case Schedules => ["subject", "date", "details"]
    case Events => ["title", "date", "description"]
    case Contacts => ["name", "department", "email"]
  }

  /** The columns declared NOT NULL (besides `id`). */
  function Required(t: AdminTable): seq<string>
  {
    match t
    case Timetables => ["program", "section", "course", "day", "time", "room"]
    case Schedules => ["subject", "date"]
    case Events => ["title", "date"]
    case Contacts => ["name", "department", "email"]
  }

  /** A stored row of `t` carries exactly the table's columns, with text in every NOT NULL one. */
  predicate WellFormed(t: AdminTable, r: Row)
  {
    && r.cells.Keys == (set c | c in Columns(t))
    && (forall c :: c in Required(t) ==> c in r.cells && r.cells[c].Str?)
  }

  /** A row of `users`; `program` and `section` are NULL for staff accounts. */
  datatype User = User(id: int, name: string, email: string, password: string, role: string,
                       program: Option<string>, section: Option<string>)

  /** A row of `notes`; `teacherId` is kept as the text the upload form sent. */
  datatype Note = Note(id: int, courseName: string, originalFilename: string, storedFilename: string,
                       teacherId: string)

  /** A property value of a row object sent back to a client. */
  datatype Value = Int(i: int) | Text(s: string) | Nil

  function OptionText(o: Option<string>): Value
  {
    match o
    case Some(s) => Text(s)
    case None => Nil
  }

  /** The object the database driver builds for a `SELECT *` over `users`. */
  function UserObject(u: User): map<string, Value>
  {
    map["id" := Int(u.id), "name" := Text(u.name), "email" := Text(u.email),
        "password" := Text(u.password), "role" := Text(u.role),
        "program" := OptionText(u.program), "section" := OptionText(u.section)]
  }
}
