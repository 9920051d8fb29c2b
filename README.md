# Campus-GPT backend in Dafny

A model of `server.js`, the HTTP backend of the Campus-GPT campus assistant,
with proofs about it. The server keeps one SQLite database. It has:

- users: students who sign up, teachers added by an admin, and the seeded admin;
- four admin tables (timetables, exam schedules, events, faculty contacts),
  served by one generic set of routes;
- uploaded course notes.

A keyword chatbot (`POST /ask`) answers from these tables.

The project has seven modules:

- `Strings` (`strings.dfy`): the JavaScript string operations the handlers use:
  `toLowerCase`, `includes`, `trim` and `join`. It also has a `Split` that reads
  a reply back into its lines; the handlers do not call it.
- `Sequences` (`sequences.dfy`): the subsequence order, a filter that stands for
  an SQL `WHERE`, and `map` over rows.
- `Schema` (`schema.dfy`): the rows of the tables and their columns.
- `Chatbot` (`chatbot.dfy`): the `/ask` handler as pure functions. It covers the
  intent chain, the filler-phrase stripping for notes queries, and the reply
  texts. `ChatbotExamples` (`chatbot_examples.dfy`) states what the model
  gives for particular queries.
- `SqlInsert` (`sqlinsert.dfy`): the INSERT statement built from a request body
  by the generic admin POST route.
- `Campus` (`campus.dfy`): the database as a class, `CampusStore`, with one
  method per route that changes it. Each method is specified against
  value-level functions (`WithoutRow`, `NewRow`, `FindUser`, …), and the lemmas
  about those functions carry the properties.

The store keeps this invariant (`CampusStore.Valid`):

- ids ascend and never exceed their AUTOINCREMENT counter;
- emails are unique;
- every admin row has exactly its table's columns, with text in each NOT NULL column.

Some behaviour of `server.js` that the model states exactly:

- **Intent keywords.** The handler tests `timetable` or `class schedule`, then
  `exam`, then `faculty` or `contact`, then `event`, then `note`, and the first
  test that holds decides. The words "schedule" or "class" on their own select
  nothing (`ChatbotExamples.BareScheduleIsHelp`), and neither does "professor".
- **Filler stripping.** For a notes query the handler removes whole-word
  occurrences of eleven fixed phrases, in list order, and then trims the ends.
  Every other word stays, and so do inner spaces. So "Can I get notes for
  physics" gives the fragment `can i   physics`
  (`ChatbotExamples.PhysicsFragment`), and a note whose course is "Physics 101"
  is then not found (`ChatbotExamples.PhysicsReply`).
- **Fixed help text.** A query that matches no keyword gets a fixed help text.
  Every reply is built from fixed texts, the request's program, section and
  query, and the rows of the tables; nothing comes from outside the request
  and the store.
- **Admin routes.** The admin tables have list, insert and delete routes only.
  An insert with an empty body fails because the statement
  `INSERT INTO t () VALUES ()` does not parse.
- **Adding a teacher** fails only when a field is absent, which binds SQL NULL,
  or when the email is taken. Empty strings are accepted.

## Model

| member | source | states |
|---|---|---|
| `Strings.ToLower` | server.js:60 | lower-casing keeps the length and maps each character, upper-case ASCII letters to their lower-case form and others to themselves |
| `Strings.ToLowerIdempotent` | server.js:60 | lower-casing an already lower-cased query changes nothing |
| `Strings.Contains` | server.js:63 | `includes`; `ContainsIff` states that it holds exactly when the pattern occurs at some index |
| `Strings.ContainsIff` | server.js:63 | `includes` holds exactly when the pattern occurs at some index |
| `Strings.ContainsAppend` | server.js:63 | a substring of a text is still a substring after text is added on either side |
| `Strings.Trim` | server.js:92 | trimming returns a slice of the input with only whitespace removed before and after it, and the result neither starts nor ends with whitespace |
| `Strings.Join` | server.js:68 | `join` on one separator; `SplitJoin` states that it can be read back |
| `Strings.SplitJoin` | server.js:68 | splitting a `join('\n')` of separator-free pieces at the separator gives back the pieces |
| `Sequences.Map` | server.js:68 | `map` over rows: one result per row, the `i`-th being the function applied to the `i`-th row |
| `Sequences.Filter` | server.js:64 | a `WHERE` keeps the elements satisfying the condition and no others, never adding any |
| `Sequences.FilterIsSubsequence` | server.js:64 | a `WHERE` keeps the surviving rows in table order |
| `Sequences.FilterPairwise` | server.js:132 | deleting rows keeps any property that holds of every ordered pair of rows (ascending ids, distinct emails) |
| `Chatbot.Mentions` | server.js:63-90 | the `includes` tests of one branch of the chain; `Classify` and `ClassifyIsFirstMention` state how they choose the branch |
| `Chatbot.Classify` | server.js:63-107 | the chosen intent is mentioned by the query (or is the help text) and no intent earlier in the chain is mentioned |
| `Chatbot.ClassifyIsFirstMention` | server.js:63-107 | those two properties determine the intent: any intent satisfying them is the one chosen |
| `Chatbot.MoreTextNeverLowersPriority` | server.js:63-89 | adding text before or after a query can only move it to an intent earlier in the chain |
| `Chatbot.TimetableBeatsAll` | server.js:63-69 | a query naming the timetable gets the timetable branch, whatever else it names |
| `Chatbot.ExamBeatsEvent` | server.js:63-83 | a query naming both an exam and an event, and not the timetable, gets the exam branch |
| `Chatbot.ReplaceFrom` | server.js:92 | one global whole-word replace by ""; its meaning is stated by `ReplaceFromLeftmost`, `ReplaceFromUntouched` and `ReplaceFromIsSubsequence` |
| `Chatbot.ReplaceFromIsSubsequence` | server.js:92 | a global whole-word replace by "" only deletes characters |
| `Chatbot.ReplaceFromUntouched` | server.js:92 | with no whole-word match from an index on, the rest of the text is kept verbatim |
| `Chatbot.ReplaceFromLeftmost` | server.js:92 | text before the leftmost whole-word match is kept, the match is dropped and the scan resumes behind it |
| `Chatbot.DropSingle` | server.js:92 | a phrase with exactly one whole-word occurrence is cut out and nothing else changes |
| `Chatbot.ReplaceAbsent` | server.js:92 | a phrase that does not occur at all leaves the text unchanged |
| `Chatbot.RemoveAll` | server.js:91-92 | the reduce over the filler phrases; its meaning is stated by `RemoveAllAppend`, `RemoveAllUntouched`, `RemoveAllAbsent` and `RemoveAllIsSubsequence` |
| `Chatbot.RemoveAllIsSubsequence` | server.js:91-92 | the reduce over all filler phrases only deletes characters |
| `Chatbot.RemoveAllUntouched` | server.js:91-92 | with no whole-word filler anywhere, the reduce changes nothing |
| `Chatbot.RemoveAllAbsent` | server.js:91-92 | phrases absent from the text leave it unchanged through the reduce |
| `Chatbot.RemoveAllAppend` | server.js:92 | reducing over a concatenated phrase list is reducing over the first part, then over the rest |
| `Chatbot.Fragment` | server.js:91-92 | the course fragment of a notes query; `FragmentShape`, `FragmentWithoutFillers` and `ChatbotExamples.PhysicsFragment` state what it is |
| `Chatbot.FragmentShape` | server.js:92 | the course fragment is a subsequence of the lower-cased query and has no leading or trailing whitespace |
| `Chatbot.FragmentWithoutFillers` | server.js:91-92 | a query without any whole-word filler is only trimmed |
| `Chatbot.Answer` | server.js:58-107 | the reply of `/ask`; `Classify` states which branch is taken, and `TimetableReply`, `ExamReply`, `FacultyReply`, `EventReply`, `NotesReply` and `EmptyFragmentSkipsLookup` state the reply of each branch |
| `Chatbot.AnswerIgnoresCase` | server.js:60 | the reply depends on the query only through its lower-cased form |
| `Chatbot.ListingLines` | server.js:68-97 | a header plus `join('\n')` of one-line items splits back into the header and the items, and with no items it is the header and a line break |
| `Chatbot.ClassRows` | server.js:64 | the timetable query `WHERE program = ? AND section = ?`; `ClassRowsExactly` states which rows it returns and in what order |
| `Chatbot.Listing` | server.js:68-100 | a header, a line break and the lines joined by line breaks; `ListingLines` states how it reads back |
| `Chatbot.TimetableHeader` | server.js:68 | the first line of the timetable reply; `TimetableReply` states its place in the reply |
| `Chatbot.TimetableLine` | server.js:68 | one timetable row as a bullet line; `TimetableLinesOneLine` and `TimetableReply` state its use |
| `Chatbot.NoTimetable` | server.js:66 | the not-found text naming program and section; `TimetableReply` states when it is the reply |
| `Chatbot.ExamLine` | server.js:74 | one schedules row as a bullet line; `ExamLineOneLine` and `ExamReply` state its use |
| `Chatbot.ContactLine` | server.js:80 | one contacts row as a bullet line; `ContactLineOneLine` and `FacultyReply` state its use |
| `Chatbot.EventLine` | server.js:86 | one events row as a bullet line; `EventLineOneLine` and `EventReply` state its use |
| `Chatbot.ClassRowsExactly` | server.js:64 | the timetable rows are exactly those whose program and section equal the request's, in table order |
| `Chatbot.TimetableReply` | server.js:63-69 | with no matching rows the reply is the not-found message naming program and section; otherwise, when program, section and those rows hold no line break, it reads back as the header and one bullet line per matching row, in order |
| `Chatbot.ExamReply` | server.js:72-76 | the exam reply is the header and a line break for an empty schedules table; otherwise, when the rows hold no line break, it reads back as the header and one line per row, in table order |
| `Chatbot.FacultyReply` | server.js:78-82 | the faculty reply is the header and a line break for an empty contacts table; otherwise, when the rows hold no line break, it reads back as the header and one line per row, in table order |
| `Chatbot.EventReply` | server.js:84-88 | the event reply is the header and a line break for an empty events table; otherwise, when the rows hold no line break, it reads back as the header and one line per row, in table order |
| `Chatbot.NotesFor` | server.js:95 | the notes query `WHERE lower(course_name) LIKE ?`; `NotesForExactly` states which notes it returns and in what order |
| `Chatbot.NoteLine` | server.js:97 | one note as a bullet line with its link; `NoteLineOneLine` and `NotesReply` state its use |
| `Chatbot.NoNotes` | server.js:100 | the "couldn't find" text naming the fragment; `NotesReply` states when it is the reply |
| `Chatbot.NotesForExactly` | server.js:95 | the listed notes are exactly those whose lower-cased course name contains the fragment, in table order |
| `Chatbot.NotesReply` | server.js:89-104 | an empty fragment gives the clarification prompt and no match gives the "couldn't find" reply naming the fragment; otherwise, when the fragment and the matching notes hold no line break, the reply reads back as the header naming the fragment and one line per matching note |
| `Chatbot.FragmentOneLine` | server.js:91-92 | the fragment of a query without line breaks has none, so the notes header is then one line |
| `Chatbot.EmptyFragmentSkipsLookup` | server.js:93-104 | when the fragment is empty the notes table is not consulted: any contents give the clarification prompt |
| `ChatbotExamples.ExamBeforeEventQuery` | server.js:63-71 | "is the exam before the event" gets the exam branch |
| `ChatbotExamples.ExamTimetableQuery` | server.js:63-69 | "exam timetable" gets the timetable branch |
| `ChatbotExamples.ExamEventTimetableQuery` | server.js:63-83 | "exam event timetable" names an exam and an event yet gets the timetable branch |
| `ChatbotExamples.BareScheduleIsHelp` | server.js:63-106 | "my schedule" matches no keyword and gets the help text |
| `ChatbotExamples.PhysicsFragment` | server.js:91-92 | "can i get notes for physics" strips to `can i   physics` |
| `ChatbotExamples.NotebookFragment` | server.js:91-92 | "note" inside "notebook" is not a whole word, so "dbms notebook" is kept as it is |
| `ChatbotExamples.PhysicsIsNotesQuery` | server.js:63-89 | "can i get notes for physics" reaches the notes branch |
| `ChatbotExamples.PhysicsReply` | server.js:89-104 | that query, against a single note for "Physics 101", gets the "couldn't find" reply naming `can i   physics` |
| `SqlInsert.Keys` | server.js:122 | the column list of the statement, `Object.keys` of the body; `ListsReadBack` and `BindingFollowsBody` state what it holds |
| `SqlInsert.Values` | server.js:124 | the bound values, `Object.values` of the body; `BindingFollowsBody` states which column each one reaches |
| `SqlInsert.InsertSql` | server.js:122-124 | the INSERT statement; `OnePlaceholderPerColumn` and `ListsReadBack` state that it has one column and one `?` per property |
| `SqlInsert.PlaceholderCount` | server.js:123 | the placeholder list holds one `?` per column |
| `SqlInsert.OnePlaceholderPerColumn` | server.js:122-124 | with `?`-free table and property names, the statement has exactly one `?` per body property |
| `SqlInsert.ListsReadBack` | server.js:122-124 | the column list reads back as the property names and the placeholder list as one `?` per property, both as long as the body |
| `SqlInsert.BindingFollowsBody` | server.js:122-124 | binding `Object.values` positionally against `Object.keys` stores in each column the value the body gives that property |
| `SqlInsert.LookupAt` | server.js:122-124 | with distinct property names, each property's value is the one at its position in the body |
| `SqlInsert.LookupMissing` | server.js:124 | a column the body does not name is left NULL |
| `Campus.AppendNextId` | database.js:8 | an AUTOINCREMENT insert takes the next id, which keeps ids ascending and differs from every existing id |
| `Campus.FilterKeepsIds` | server.js:132 | a delete keeps ids ascending and bounded by the counter |
| `Campus.AddUserKeepsValid` | database.js:8-10 | adding an account with the next id and an unused email keeps ids ascending and emails unique |
| `Campus.Truthy` | server.js:30 | the `!field` test on a body field (also server.js:163): it fails for an absent field and for the empty string; `CampusStore.Signup` and `CampusStore.AddNote` state its use |
| `Campus.FindUser` | server.js:45 | the lookup returns a row matching email, password and role, or reports that no row matches |
| `Campus.LoginFindsTheAccount` | server.js:45-49 | since emails are unique, login with an account's email finds that account exactly when password and role both match |
| `Campus.Public` | server.js:49 | the user object sent after login has every column of the row except `password`, with the row's values |
| `Campus.Teachers` | server.js:138 | the teacher list has one entry per teacher account, in table order, holding that account's id, name and email |
| `Campus.TeachersExactly` | server.js:138 | the listed accounts are teacher accounts in table order; every teacher account is listed and no other account is |
| `Campus.TeacherAccounts` | server.js:138 | the rows `WHERE role = 'teacher'`; `TeachersExactly` states that they are the teacher accounts in table order |
| `Campus.WithoutTeacher` | server.js:151 | the users table after a teacher delete; `TeacherDeleteSparesOthers` states what it keeps |
| `Campus.TeacherDeleteSparesOthers` | server.js:151 | a teacher delete removes only a teacher with that id; students, admins and other teachers stay, in order |
| `Campus.SignupThenLogin` | server.js:35-45 | an account that has just been added can log in with its email, password and role |
| `Campus.FirstUnknownSpec` | server.js:124 | the statement names no unknown column exactly when every property is a column of the table, and a reported column is a property that is not a column |
| `Campus.FirstNullSpec` | database.js:30-58 | no NOT NULL column is left NULL exactly when each of them receives text, and a reported column is a NOT NULL column left NULL |
| `Campus.OneParameterPerValue` | server.js:116-124 | the statement built for each admin table has exactly one `?` per value bound, when no property name contains `?` |
| `Campus.InsertFailure` | server.js:124-127 | the engine's verdict on the statement; `InsertAccepted`, `FirstUnknownSpec` and `FirstNullSpec` state when it refuses and why |
| `Campus.InsertAccepted` | server.js:120-128 | an insert succeeds exactly when the body is non-empty, every property names a column, and every NOT NULL column receives text |
| `Campus.NewRow` | server.js:124 | the row the statement stores; `InsertedRow` states its cells |
| `Campus.InsertedRow` | server.js:122-124 | an accepted insert stores a well-formed row holding each property's value under its name and NULL in every column left out |
| `Campus.RowInsert` | server.js:124 | an accepted insert keeps the table valid |
| `Campus.WithoutRow` | server.js:132 | an admin table after a delete by id; `RowDelete` states what it keeps |
| `Campus.RowDelete` | server.js:131-134 | a delete by id keeps the table valid and removes exactly the row with that id; with no such row the table is unchanged |
| `Campus.WithoutNote` | server.js:177 | the notes table after a delete by id; `NoteDeleteSparesOthers` states what it keeps |
| `Campus.NoteDeleteSparesOthers` | server.js:177 | a note delete removes only the note with that id and keeps the others in order |
| `Campus.CampusStore.constructor` | database.js:20-27 | a fresh database is valid, holds only the default admin account with id 1, has empty admin and notes tables, and its AUTOINCREMENT counters stand at 1 for users and 0 for every other table, so the first sign-up gets id 2 |
| `Campus.CampusStore.Signup` | server.js:28-40 | a missing or empty field gives 400 "All fields are required for signup." and a taken email gives 400 "Email already exists.", both leaving the store unchanged; otherwise a student account with the next id is appended and the reply is 201 |
| `Campus.CampusStore.Login` | server.js:42-54 | with no matching account the reply is 401 "Invalid credentials or role.", otherwise 200 "Login successful" with a matching account's row minus its password |
| `Campus.CampusStore.Ask` | server.js:58-112 | the chatbot reply is computed over the current timetables, schedules, contacts, events and notes |
| `Campus.CampusStore.InsertItem` | server.js:120-129 | a refused statement gives 400 "Failed to add item. " followed by the engine's message and changes nothing; otherwise the new row is appended with the next id and the reply is 201 |
| `Campus.CampusStore.DeleteItem` | server.js:131-134 | the row with that id is removed from that table only and the reply is always 200 "Deleted successfully." |
| `Campus.CampusStore.AddTeacher` | server.js:140-148 | an absent field or a taken email gives 400 and changes nothing; otherwise a teacher account without program or section is appended and the reply is 201 |
| `Campus.CampusStore.DeleteTeacher` | server.js:150-153 | only a teacher account with that id is removed, notes stay, and the reply is always 200 "Teacher deleted." |
| `Campus.CampusStore.AddNote` | server.js:159-173 | no file gives 400 "No PDF file was uploaded.", a missing course name or teacher id gives 400 "Course name and teacher ID are required.", otherwise the note is appended with both file names and the reply is 201 |
| `Campus.CampusStore.DeleteNote` | server.js:175-179 | only the note row with that id is removed and the reply is always 200 "Note deleted successfully." |

## Left out

- Express wiring, CORS, body parsing, static serving of `/uploads` and `app.listen` (server.js:8-13, 183-185). These are framework plumbing.
- Multer disk storage and the stored file name `Date.now()-<original name>` (server.js:16-20). This is file I/O with a clock. The stored name is an input of `AddNote`, and the uploaded file itself is not modelled.
- The 500 replies (server.js:52, 109-111, 170-171) come from engine failures that the modelled database cannot produce.
- `GET /api/<table>` and `GET /api/notes` (server.js:118, 157) return a table as stored. They are the fields `items[t]` and `notes` of `CampusStore` and have no member of their own.
- Campus.InsertAccepted: property names are compared with column names exactly. SQLite resolves an unquoted column name without regard to ASCII case and takes `rowid`, `oid` and `_rowid_` as the id, so a body keyed `Program`, `ID` or `rowid`, which SQLite accepts, is refused here as naming an unknown column. Names with quotes, spaces or other SQL text, which are pasted into the statement unescaped, are not modelled either.
- Campus.InsertFailure: it compares property names with column names exactly, so it refuses a property named `Program`, `ID` or `rowid` that SQLite accepts; see `Campus.InsertAccepted`.
- Campus.FirstUnknownSpec: "a column of the table" is exact string membership, for the same reason as `Campus.InsertAccepted`.
- Campus.CampusStore.InsertItem: a body with an `id` property is excluded by a precondition. SQLite would store an explicit integer id and refuse a non-integer one, and that rowid handling is not modelled. A key spelled `ID`, `Id` or as a rowid alias is not caught by that precondition: the model refuses it as an unknown column, where SQLite would set the id (see `Campus.InsertAccepted`).
- Campus.CampusStore.InsertItem: the engine's error text is a parameter. Only the failure kind is modelled: a statement that does not parse, an unknown column, or a NOT NULL violation. Which unknown column SQLite names is not modelled.
- JSON values other than strings and `null` in request bodies (numbers, booleans, objects) are not modelled. For the sign-up, teacher and note fields, "absent" and "string" are the only cases.
- The `:id` path parameter is taken as an integer. SQLite's conversion of the path text (`"05"`, `"abc"`) is not modelled.
- `/ask` requires a query string. A missing query throws outside the `try` (server.js:60); that crash is not modelled. `program` and `section` are taken as strings.
- `LIKE` wildcards (`%`, `_` inside the fragment) and `lower()` are read as a plain substring test on an ASCII lower-cased course name (server.js:95).
- `toLowerCase` and `trim` cover ASCII letters and ASCII whitespace (space, tab, line feed, carriage return, vertical tab, form feed) only.
- database.js beyond its constraints is not modelled: connection setup, table creation and the "seed only if absent" check. The model starts from a freshly created database, which `CampusStore.constructor` describes.
- The `teacher_id` of a note is kept as the text the form sent. The foreign key to `users` is not enforced by SQLite without `PRAGMA foreign_keys`, and the model does not check it either.
- Requests run one at a time. Concurrent requests and async scheduling are not modelled.
