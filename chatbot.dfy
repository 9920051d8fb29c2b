/** The `/ask` handler of server.js: a fixed, first-match-wins chain of keyword
    tests on the lower-cased query, a filler-phrase stripping pass that extracts
    a course name for the notes intent, and the reply texts built from the
    table rows. Table contents arrive as arguments (a snapshot of the store). */
module Chatbot {
  import opened Strings
  import opened Sequences
  import opened Schema

  datatype Intent = TimetableQuery | ExamQuery | FacultyQuery | EventQuery | NotesQuery | HelpQuery

  /** Position of each intent in the chain; the help text comes last. */
  function Rank(i: Intent): nat
  {
    match i
    case TimetableQuery => 0
    case ExamQuery => 1
    case FacultyQuery => 2
    case EventQuery => 3
    case NotesQuery => 4
    case HelpQuery => 5
  }

  /** The query contains one of the substrings that select intent `i`. */
  predicate Mentions(q: string, i: Intent)
  {
    match i
    case TimetableQuery => Contains(q, "timetable") || Contains(q, "class schedule")
    case ExamQuery => Contains(q, "exam")
    case FacultyQuery => Contains(q, "faculty") || Contains(q, "contact")
    case EventQuery => Contains(q, "event")
    case NotesQuery => Contains(q, "note")
    case HelpQuery => false
  }

  /** The chain of `includes` tests. The chosen intent is mentioned by the
      query (or is the help text), and no intent earlier in the chain is. */
  function Classify(lq: string): (i: Intent)
    ensures i == HelpQuery || Mentions(lq, i)
    ensures forall j :: Rank(j) < Rank(i) ==> !Mentions(lq, j)
  {
    if Contains(lq, "timetable") || Contains(lq, "class schedule") then TimetableQuery
    else if Contains(lq, "exam") then ExamQuery
    else if Contains(lq, "faculty") || Contains(lq, "contact") then FacultyQuery
    else if Contains(lq, "event") then EventQuery
    else if Contains(lq, "note") then NotesQuery
    else HelpQuery
  }

  /** The two postconditions of Classify pin the intent down: no other intent meets them. */
  lemma ClassifyIsFirstMention(q: string, i: Intent)
    requires i == HelpQuery || Mentions(q, i)
    requires forall j :: Rank(j) < Rank(i) ==> !Mentions(q, j)
    ensures i == Classify(q)
  {
  }

  /** Adding text before or after a query can only move it to an intent earlier in the chain. */
  lemma MoreTextNeverLowersPriority(q: string, t: string)
    ensures Rank(Classify(q + t)) <= Rank(Classify(q))
    ensures Rank(Classify(t + q)) <= Rank(Classify(q))
  {
    var i := Classify(q);
    match i
    case TimetableQuery =>
      if Contains(q, "timetable") { ContainsAppend(q, "timetable", t); }
      else { ContainsAppend(q, "class schedule", t); }
    case ExamQuery => ContainsAppend(q, "exam", t);
    case FacultyQuery =>
      if Contains(q, "faculty") { ContainsAppend(q, "faculty", t); }
      else { ContainsAppend(q, "contact", t); }
    case EventQuery => ContainsAppend(q, "event", t);
    case NotesQuery => ContainsAppend(q, "note", t);
    case HelpQuery =>
  }

  /** A query naming the timetable gets the timetable reply, whatever else it names. */
  lemma TimetableBeatsAll(q: string)
    requires Mentions(q, TimetableQuery)
    ensures Classify(q) == TimetableQuery
  {
  }

  /** A query naming both an exam and an event, and not the timetable, gets the exam reply. */
  lemma ExamBeatsEvent(q: string)
    requires Contains(q, "exam") && Contains(q, "event")
    requires !Mentions(q, TimetableQuery)
    ensures Classify(q) == ExamQuery
  {
  }

  // ---------------------------------------------------------------------------
  // Filler stripping for the notes intent

  /** The phrases removed, in the order they are applied. */
  const Fillers: seq<string> :=
    ["notes for", "notes on", "note for", "note on", "notes", "note", "provide", "me", "with", "give", "get"]

  /** `\b` at position `p`: the characters on the two sides differ in being word
      characters, the ends of the text counting as non-word. */
  predicate Boundary(s: string, p: int)
    requires 0 <= p <= |s|
  {
    (p > 0 && IsWordChar(s[p - 1])) != (p < |s| && IsWordChar(s[p]))
  }

  /** The regular expression `\bw\b` matches `s` at index `i`. */
  predicate WholeWordAt(s: string, w: string, i: int)
  {
    OccursAt(s, w, i) && Boundary(s, i) && Boundary(s, i + |w|)
  }

  /** A global replace of `\bw\b` by "" over `s[i..]`: each position is tried
      left to right against the original text; after a match the scan resumes
      behind it. */
  function ReplaceFrom(s: string, w: string, i: nat): string
    requires |w| > 0
    decreases |s| - i
  {
    if i >= |s| then []
    else if WholeWordAt(s, w, i) then ReplaceFrom(s, w, i + |w|)
    else [s[i]] + ReplaceFrom(s, w, i + 1)
  }

  /** The fold over the phrases, each removed from the result of the previous one. */
  function RemoveAll(s: string, ws: seq<string>): string
    requires forall k :: 0 <= k < |ws| ==> |ws[k]| > 0
    decreases |ws|
  {
    if ws == [] then s else RemoveAll(ReplaceFrom(s, ws[0], 0), ws[1..])
  }

  /** The course-name fragment extracted from a lower-cased query. */
  function Fragment(lq: string): string
  {
    Trim(RemoveAll(lq, Fillers))
  }

  /** Replacing only deletes characters. */
  lemma {:induction false} ReplaceFromIsSubsequence(s: string, w: string, i: nat)
    requires |w| > 0 && i <= |s|
    ensures IsSubsequence(ReplaceFrom(s, w, i), s[i..])
    decreases |s| - i
  {
    if i < |s| {
      if WholeWordAt(s, w, i) {
        ReplaceFromIsSubsequence(s, w, i + |w|);
        SubsequenceExtend(ReplaceFrom(s, w, i + |w|), s[i + |w|..], s[i..i + |w|]);
        assert s[i..i + |w|] + s[i + |w|..] == s[i..];
      } else {
        ReplaceFromIsSubsequence(s, w, i + 1);
        ConsSubsequence(s[i], ReplaceFrom(s, w, i + 1), s[i + 1..]);
        assert [s[i]] + s[i + 1..] == s[i..];
      }
    }
  }

  /** Text with no whole-word occurrence of `w` is left as it is: a `w` inside
      a longer word is not touched. */
  lemma {:induction false} ReplaceFromUntouched(s: string, w: string, i: nat)
    requires |w| > 0 && i <= |s|
    requires forall j :: i <= j < |s| ==> !WholeWordAt(s, w, j)
    ensures ReplaceFrom(s, w, i) == s[i..]
    decreases |s| - i
  {
    if i < |s| {
      ReplaceFromUntouched(s, w, i + 1);
      assert [s[i]] + s[i + 1..] == s[i..];
    }
  }

  /** A position where no whole-word match starts is copied to the output. */
  lemma ReplaceFromKeeps(s: string, w: string, i: nat)
    requires |w| > 0 && i < |s| && !WholeWordAt(s, w, i)
    ensures ReplaceFrom(s, w, i) == [s[i]] + ReplaceFrom(s, w, i + 1)
  {
  }

  /** A whole-word match is skipped. */
  lemma ReplaceFromDrops(s: string, w: string, m: nat)
    requires |w| > 0 && WholeWordAt(s, w, m)
    ensures ReplaceFrom(s, w, m) == ReplaceFrom(s, w, m + |w|)
  {
  }

  /** Everything before the leftmost whole-word occurrence at or after `i` is
      kept, the occurrence is dropped, and the scan goes on behind it. */
  lemma {:induction false} ReplaceFromLeftmost(s: string, w: string, i: nat, m: nat)
    requires |w| > 0 && i <= m
    requires WholeWordAt(s, w, m)
    requires forall j :: i <= j < m ==> !WholeWordAt(s, w, j)
    ensures ReplaceFrom(s, w, i) == s[i..m] + ReplaceFrom(s, w, m + |w|)
    decreases m - i
  {
    if i < m {
      ReplaceFromKeeps(s, w, i);
      ReplaceFromLeftmost(s, w, i + 1, m);
      var rest := ReplaceFrom(s, w, m + |w|);
      calc {
        ReplaceFrom(s, w, i);
        [s[i]] + (s[i + 1..m] + rest);
        ([s[i]] + s[i + 1..m]) + rest;
        { assert [s[i]] + s[i + 1..m] == s[i..m]; }
        s[i..m] + rest;
      }
    } else {
      ReplaceFromDrops(s, w, m);
      assert s[i..m] == [];
    }
  }

  lemma {:induction false} RemoveAllIsSubsequence(s: string, ws: seq<string>)
    requires forall k :: 0 <= k < |ws| ==> |ws[k]| > 0
    ensures IsSubsequence(RemoveAll(s, ws), s)
    decreases |ws|
  {
    if ws == [] {
      SubsequenceRefl(s);
    } else {
      var once := ReplaceFrom(s, ws[0], 0);
      ReplaceFromIsSubsequence(s, ws[0], 0);
      assert s[0..] == s;
      RemoveAllIsSubsequence(once, ws[1..]);
      SubsequenceTrans(RemoveAll(once, ws[1..]), once, s);
    }
  }

  lemma {:induction false} RemoveAllUntouched(s: string, ws: seq<string>)
    requires forall k :: 0 <= k < |ws| ==> |ws[k]| > 0
    requires forall k, j :: 0 <= k < |ws| && 0 <= j < |s| ==> !WholeWordAt(s, ws[k], j)
    ensures RemoveAll(s, ws) == s
    decreases |ws|
  {
    if ws != [] {
      ReplaceFromUntouched(s, ws[0], 0);
      assert s[0..] == s;
      RemoveAllUntouched(s, ws[1..]);
    }
  }

  /** A phrase with a single whole-word occurrence is cut out of the text and nothing else changes. */
  lemma DropSingle(s: string, w: string, m: nat)
    requires |w| > 0 && WholeWordAt(s, w, m)
    requires forall j :: 0 <= j < m ==> !WholeWordAt(s, w, j)
    requires forall j :: m + |w| <= j < |s| ==> !WholeWordAt(s, w, j)
    ensures ReplaceFrom(s, w, 0) == s[..m] + s[m + |w|..]
  {
    ReplaceFromLeftmost(s, w, 0, m);
    ReplaceFromUntouched(s, w, m + |w|);
  }

  /** A phrase the text does not contain at all is not removed. */
  lemma ReplaceAbsent(s: string, w: string)
    requires |w| > 0 && !Contains(s, w)
    ensures ReplaceFrom(s, w, 0) == s
  {
    ContainsIff(s, w);
    ReplaceFromUntouched(s, w, 0);
  }

  lemma {:induction false} RemoveAllAbsent(s: string, ws: seq<string>)
    requires forall k :: 0 <= k < |ws| ==> |ws[k]| > 0 && !Contains(s, ws[k])
    ensures RemoveAll(s, ws) == s
    decreases |ws|
  {
    if ws != [] {
      ReplaceAbsent(s, ws[0]);
      RemoveAllAbsent(s, ws[1..]);
    }
  }

  /** Removing a list of phrases is removing its first part, then the rest. */
  lemma {:induction false} RemoveAllAppend(s: string, ws1: seq<string>, ws2: seq<string>)
    requires forall k :: 0 <= k < |ws1| ==> |ws1[k]| > 0
    requires forall k :: 0 <= k < |ws2| ==> |ws2[k]| > 0
    ensures RemoveAll(s, ws1 + ws2) == RemoveAll(RemoveAll(s, ws1), ws2)
    decreases |ws1|
  {
    if ws1 == [] {
      assert ws1 + ws2 == ws2;
    } else {
      assert (ws1 + ws2)[0] == ws1[0] && (ws1 + ws2)[1..] == ws1[1..] + ws2;
      RemoveAllAppend(ReplaceFrom(s, ws1[0], 0), ws1[1..], ws2);
    }
  }

  /** The fragment is the query with characters deleted, and it neither starts
      nor ends with whitespace. */
  lemma FragmentShape(lq: string)
    ensures IsSubsequence(Fragment(lq), lq)
    ensures Fragment(lq) == [] || (!IsSpace(Fragment(lq)[0]) && !IsSpace(Fragment(lq)[|Fragment(lq)| - 1]))
  {
    var stripped := RemoveAll(lq, Fillers);
    RemoveAllIsSubsequence(lq, Fillers);
    var i, j :| 0 <= i <= j <= |stripped| && Fragment(lq) == stripped[i..j];
    SliceIsSubsequence(stripped, i, j);
    SubsequenceTrans(Fragment(lq), stripped, lq);
  }

  /** A query without any whole-word filler is only trimmed. */
  lemma FragmentWithoutFillers(lq: string)
    requires forall k, j :: 0 <= k < |Fillers| && 0 <= j < |lq| ==> !WholeWordAt(lq, Fillers[k], j)
    ensures Fragment(lq) == Trim(lq)
  {
    RemoveAllUntouched(lq, Fillers);
  }

  // ---------------------------------------------------------------------------
  // Replies

  const Bullet: string := "\U{2022} "

  const HelpText: string :=
    "I can help with timetables, exams, faculty contacts, notes, and campus events. How can I assist?"

  const AskForCourse: string := "Which course notes are you looking for? e.g., 'DBMS notes'"

  /** A header line followed by the row lines joined with newlines. */
  function Listing(header: string, lines: seq<string>): string
  {
    header + "\n" + Join(lines, '\n')
  }

  function TimetableLine(r: Row): string
  {
    Bullet + Show(r, "course") + " on " + Show(r, "day") + " at " + Show(r, "time") + " in " + Show(r, "room")
  }

  function ExamLine(r: Row): string
  {
    Bullet + Show(r, "subject") + " on " + Show(r, "date") + ": " + Show(r, "details")
  }

  function ContactLine(r: Row): string
  {
    Bullet + Show(r, "name") + " (" + Show(r, "department") + "): " + Show(r, "email")
  }

  function EventLine(r: Row): string
  {
    Bullet + Show(r, "title") + " on " + Show(r, "date") + ": " + Show(r, "description")
  }

  function NoteLine(n: Note): string
  {
    Bullet + n.originalFilename + " (link: /uploads/" + n.storedFilename + ")"
  }

  function TimetableHeader(program: string, section: string): string
  {
    "Here is the timetable for " + program + " - " + section + ":"
  }

  function NoTimetable(program: string, section: string): string
  {
    "I couldn't find a timetable for " + program + ", Section " + section + ". Please check with the admin."
  }

  function NoNotes(course: string): string
  {
    "Sorry, I couldn't find any notes for '" + course + "'."
  }

  /** `WHERE program = ? AND section = ?`: NULL or missing columns never match. */
  predicate ForClass(r: Row, program: string, section: string)
  {
    "program" in r.cells && r.cells["program"] == Str(program) &&
    "section" in r.cells && r.cells["section"] == Str(section)
  }

  function ClassRows(timetables: seq<Row>, program: string, section: string): seq<Row>
  {
    Filter(timetables, r => ForClass(r, program, section))
  }

  /** `WHERE lower(course_name) LIKE '%course%'`, read as a substring test. */
  function NotesFor(notes: seq<Note>, course: string): seq<Note>
  {
    Filter(notes, (n: Note) => Contains(ToLower(n.courseName), course))
  }

  /** The reply of `/ask` for a query, the request's program and section, and
      the contents of the tables it reads. */
  function Answer(query: string, program: string, section: string, timetables: seq<Row>,
                  schedules: seq<Row>, contacts: seq<Row>, events: seq<Row>, notes: seq<Note>): string
  {
    var lq := ToLower(query);
    match Classify(lq)
    case TimetableQuery =>
      var rows := ClassRows(timetables, program, section);
      if |rows| == 0 then NoTimetable(program, section)
      else Listing(TimetableHeader(program, section), Map(rows, TimetableLine))
    case ExamQuery => Listing("Upcoming exams:", Map(schedules, ExamLine))
    case FacultyQuery => Listing("Faculty Contacts:", Map(contacts, ContactLine))
    case EventQuery => Listing("Upcoming events:", Map(events, EventLine))
    case NotesQuery =>
      var course := Fragment(lq);
      if course != [] then
        var rows := NotesFor(notes, course);
        if |rows| > 0 then Listing("Found notes for " + course + ":", Map(rows, NoteLine))
        else NoNotes(course)
      else AskForCourse
    case HelpQuery => HelpText
  }

  // ---------------------------------------------------------------------------
  // What the replies say

  /** The query is read only through its lower-cased form. */
  lemma AnswerIgnoresCase(query: string, program: string, section: string, timetables: seq<Row>,
                          schedules: seq<Row>, contacts: seq<Row>, events: seq<Row>, notes: seq<Note>)
    ensures Answer(query, program, section, timetables, schedules, contacts, events, notes)
         == Answer(ToLower(query), program, section, timetables, schedules, contacts, events, notes)
  {
    ToLowerIdempotent(query);
  }

  /** Every text cell of the row is free of line breaks. */
  predicate OneLineRow(r: Row)
  {
    forall c :: c in r.cells && r.cells[c].Str? ==> Free(r.cells[c].s, '\n')
  }

  predicate OneLineNote(n: Note)
  {
    Free(n.originalFilename, '\n') && Free(n.storedFilename, '\n')
  }

  lemma FreeAppend(a: string, b: string, c: char)
    requires Free(a, c) && Free(b, c)
    ensures Free(a + b, c)
  {
    forall i | 0 <= i < |a + b| ensures (a + b)[i] != c {
      if i >= |a| { assert (a + b)[i] == b[i - |a|]; }
    }
  }

  /** Splitting a listing at its line breaks gives back the header and the row
      lines; with no rows the text ends in a line break after the header. */
  lemma ListingLines(header: string, lines: seq<string>)
    requires Free(header, '\n')
    requires forall k :: 0 <= k < |lines| ==> Free(lines[k], '\n')
    ensures lines == [] ==> Listing(header, lines) == header + "\n"
    ensures Split(Listing(header, lines), '\n') == [header] + (if lines == [] then [""] else lines)
  {
    assert Listing(header, lines) == header + ['\n'] + Join(lines, '\n');
    SplitAfterPiece(header, '\n', Join(lines, '\n'));
    if lines != [] {
      SplitJoin(lines, '\n');
    }
  }

  lemma TimetableLinesOneLine(rows: seq<Row>)
    requires forall k :: 0 <= k < |rows| ==> OneLineRow(rows[k])
    ensures forall k :: 0 <= k < |rows| ==> Free(Map(rows, TimetableLine)[k], '\n')
  {
    forall k | 0 <= k < |rows| ensures Free(TimetableLine(rows[k]), '\n') {
      var r := rows[k];
      FreeAppend(Bullet, Show(r, "course"), '\n');
      FreeAppend(Bullet + Show(r, "course"), " on ", '\n');
      FreeAppend(Bullet + Show(r, "course") + " on ", Show(r, "day"), '\n');
      FreeAppend(Bullet + Show(r, "course") + " on " + Show(r, "day"), " at ", '\n');
      FreeAppend(Bullet + Show(r, "course") + " on " + Show(r, "day") + " at ", Show(r, "time"), '\n');
      FreeAppend(Bullet + Show(r, "course") + " on " + Show(r, "day") + " at " + Show(r, "time"), " in ", '\n');
      FreeAppend(Bullet + Show(r, "course") + " on " + Show(r, "day") + " at " + Show(r, "time") + " in ",
                 Show(r, "room"), '\n');
    }
  }

  /** `rows.filter(...)` for the timetable query: exactly the rows of the
      request's program and section, in table order. */
  lemma ClassRowsExactly(timetables: seq<Row>, program: string, section: string)
    ensures forall r :: r in ClassRows(timetables, program, section) <==> r in timetables && ForClass(r, program, section)
    ensures IsSubsequence(ClassRows(timetables, program, section), timetables)
  {
    FilterIsSubsequence(timetables, r => ForClass(r, program, section));
  }

  lemma FreeBetween(a: string, x: string, b: string, y: string, c: string, ch: char)
    requires ch !in a && ch !in b && ch !in c && Free(x, ch) && Free(y, ch)
    ensures Free(a + x + b + y + c, ch)
  {
    FreeAppend(a, x, ch);
    FreeAppend(a + x, b, ch);
    FreeAppend(a + x + b, y, ch);
    FreeAppend(a + x + b + y, c, ch);
  }

  /** The timetable reply: the not-found message naming program and section
      when no row matches, otherwise the header and one line per matching row,
      in table order (read back line by line when program, section and the
      matching rows hold no line break). */
  lemma TimetableReply(query: string, program: string, section: string, timetables: seq<Row>,
                       schedules: seq<Row>, contacts: seq<Row>, events: seq<Row>, notes: seq<Note>)
    requires Classify(ToLower(query)) == TimetableQuery
    ensures var rows := ClassRows(timetables, program, section);
            var reply := Answer(query, program, section, timetables, schedules, contacts, events, notes);
            && (rows == [] ==> reply == NoTimetable(program, section))
            && (rows != [] && Free(program, '\n') && Free(section, '\n')
                && (forall k :: 0 <= k < |rows| ==> OneLineRow(rows[k])) ==>
                  Split(reply, '\n') == [TimetableHeader(program, section)] + Map(rows, TimetableLine))
  {
    var rows := ClassRows(timetables, program, section);
    if rows != [] && Free(program, '\n') && Free(section, '\n') && (forall k :: 0 <= k < |rows| ==> OneLineRow(rows[k])) {
      TimetableListing(program, section, rows);
    }
  }

  lemma TimetableListing(program: string, section: string, rows: seq<Row>)
    requires rows != [] && Free(program, '\n') && Free(section, '\n')
    requires forall k :: 0 <= k < |rows| ==> OneLineRow(rows[k])
    ensures Split(Listing(TimetableHeader(program, section), Map(rows, TimetableLine)), '\n')
         == [TimetableHeader(program, section)] + Map(rows, TimetableLine)
  {
    FreeBetween("Here is the timetable for ", program, " - ", section, ":", '\n');
    TimetableLinesOneLine(rows);
    ListingLines(TimetableHeader(program, section), Map(rows, TimetableLine));
  }

  lemma ExamLineOneLine(r: Row)
    requires OneLineRow(r)
    ensures Free(ExamLine(r), '\n')
  {
    FreeAppend(Bullet, Show(r, "subject"), '\n');
    FreeAppend(Bullet + Show(r, "subject"), " on ", '\n');
    FreeAppend(Bullet + Show(r, "subject") + " on ", Show(r, "date"), '\n');
    FreeAppend(Bullet + Show(r, "subject") + " on " + Show(r, "date"), ": ", '\n');
    FreeAppend(Bullet + Show(r, "subject") + " on " + Show(r, "date") + ": ", Show(r, "details"), '\n');
  }

  lemma ContactLineOneLine(r: Row)
    requires OneLineRow(r)
    ensures Free(ContactLine(r), '\n')
  {
    FreeAppend(Bullet, Show(r, "name"), '\n');
    FreeAppend(Bullet + Show(r, "name"), " (", '\n');
    FreeAppend(Bullet + Show(r, "name") + " (", Show(r, "department"), '\n');
    FreeAppend(Bullet + Show(r, "name") + " (" + Show(r, "department"), "): ", '\n');
    FreeAppend(Bullet + Show(r, "name") + " (" + Show(r, "department") + "): ", Show(r, "email"), '\n');
  }

  lemma EventLineOneLine(r: Row)
    requires OneLineRow(r)
    ensures Free(EventLine(r), '\n')
  {
    FreeAppend(Bullet, Show(r, "title"), '\n');
    FreeAppend(Bullet + Show(r, "title"), " on ", '\n');
    FreeAppend(Bullet + Show(r, "title") + " on ", Show(r, "date"), '\n');
    FreeAppend(Bullet + Show(r, "title") + " on " + Show(r, "date"), ": ", '\n');
    FreeAppend(Bullet + Show(r, "title") + " on " + Show(r, "date") + ": ", Show(r, "description"), '\n');
  }

  /** A listing of a whole table: the header and a line break for no rows,
      otherwise it reads back as the header and the row lines. */
  lemma ExamListing(rows: seq<Row>)
    requires forall k :: 0 <= k < |rows| ==> OneLineRow(rows[k])
    ensures rows == [] ==> Listing("Upcoming exams:", Map(rows, ExamLine)) == "Upcoming exams:\n"
    ensures rows != [] ==>
              Split(Listing("Upcoming exams:", Map(rows, ExamLine)), '\n') == ["Upcoming exams:"] + Map(rows, ExamLine)
  {
    forall k | 0 <= k < |rows| ensures Free(ExamLine(rows[k]), '\n') {
      ExamLineOneLine(rows[k]);
    }
    ListingLines("Upcoming exams:", Map(rows, ExamLine));
  }

  lemma ContactListing(rows: seq<Row>)
    requires forall k :: 0 <= k < |rows| ==> OneLineRow(rows[k])
    ensures rows == [] ==> Listing("Faculty Contacts:", Map(rows, ContactLine)) == "Faculty Contacts:\n"
    ensures rows != [] ==>
              Split(Listing("Faculty Contacts:", Map(rows, ContactLine)), '\n') == ["Faculty Contacts:"] + Map(rows, ContactLine)
  {
    forall k | 0 <= k < |rows| ensures Free(ContactLine(rows[k]), '\n') {
      ContactLineOneLine(rows[k]);
    }
    ListingLines("Faculty Contacts:", Map(rows, ContactLine));
  }

  lemma EventListing(rows: seq<Row>)
    requires forall k :: 0 <= k < |rows| ==> OneLineRow(rows[k])
    ensures rows == [] ==> Listing("Upcoming events:", Map(rows, EventLine)) == "Upcoming events:\n"
    ensures rows != [] ==>
              Split(Listing("Upcoming events:", Map(rows, EventLine)), '\n') == ["Upcoming events:"] + Map(rows, EventLine)
  {
    forall k | 0 <= k < |rows| ensures Free(EventLine(rows[k]), '\n') {
      EventLineOneLine(rows[k]);
    }
    ListingLines("Upcoming events:", Map(rows, EventLine));
  }

  /** The exam reply lists the whole table: the header and a line break when
      it is empty, otherwise the header and one line per row, in table order. */
  lemma ExamReply(query: string, program: string, section: string, timetables: seq<Row>,
                  schedules: seq<Row>, contacts: seq<Row>, events: seq<Row>, notes: seq<Note>)
    requires Classify(ToLower(query)) == ExamQuery
    ensures var reply := Answer(query, program, section, timetables, schedules, contacts, events, notes);
            && (schedules == [] ==> reply == "Upcoming exams:\n")
            && (schedules != [] && (forall k :: 0 <= k < |schedules| ==> OneLineRow(schedules[k])) ==>
                  Split(reply, '\n') == ["Upcoming exams:"] + Map(schedules, ExamLine))
  {
    if forall k :: 0 <= k < |schedules| ==> OneLineRow(schedules[k]) {
      ExamListing(schedules);
    }
  }

  /** The faculty reply lists the whole contacts table in the same way. */
  lemma FacultyReply(query: string, program: string, section: string, timetables: seq<Row>,
                     schedules: seq<Row>, contacts: seq<Row>, events: seq<Row>, notes: seq<Note>)
    requires Classify(ToLower(query)) == FacultyQuery
    ensures var reply := Answer(query, program, section, timetables, schedules, contacts, events, notes);
            && (contacts == [] ==> reply == "Faculty Contacts:\n")
            && (contacts != [] && (forall k :: 0 <= k < |contacts| ==> OneLineRow(contacts[k])) ==>
                  Split(reply, '\n') == ["Faculty Contacts:"] + Map(contacts, ContactLine))
  {
    if forall k :: 0 <= k < |contacts| ==> OneLineRow(contacts[k]) {
      ContactListing(contacts);
    }
  }

  /** The event reply lists the whole events table in the same way. */
  lemma EventReply(query: string, program: string, section: string, timetables: seq<Row>,
                   schedules: seq<Row>, contacts: seq<Row>, events: seq<Row>, notes: seq<Note>)
    requires Classify(ToLower(query)) == EventQuery
    ensures var reply := Answer(query, program, section, timetables, schedules, contacts, events, notes);
            && (events == [] ==> reply == "Upcoming events:\n")
            && (events != [] && (forall k :: 0 <= k < |events| ==> OneLineRow(events[k])) ==>
                  Split(reply, '\n') == ["Upcoming events:"] + Map(events, EventLine))
  {
    if forall k :: 0 <= k < |events| ==> OneLineRow(events[k]) {
      EventListing(events);
    }
  }

  /** `lower(course_name) LIKE '%course%'`: exactly the notes whose lower-cased
      course name contains the fragment, in table order. */
  lemma NotesForExactly(notes: seq<Note>, course: string)
    ensures forall n :: n in NotesFor(notes, course) <==> n in notes && Contains(ToLower(n.courseName), course)
    ensures IsSubsequence(NotesFor(notes, course), notes)
  {
    FilterIsSubsequence(notes, (n: Note) => Contains(ToLower(n.courseName), course));
  }

  lemma {:induction false} SubsequenceFree(a: string, b: string, c: char)
    requires IsSubsequence(a, b) && Free(b, c)
    ensures Free(a, c)
    decreases |b|
  {
    if a != [] {
      if a[0] == b[0] && IsSubsequence(a[1..], b[1..]) {
        SubsequenceFree(a[1..], b[1..], c);
        assert forall i :: 1 <= i < |a| ==> a[i] == a[1..][i - 1];
      } else {
        SubsequenceFree(a, b[1..], c);
      }
    }
  }

  lemma NoteLineOneLine(n: Note)
    requires OneLineNote(n)
    ensures Free(NoteLine(n), '\n')
  {
    FreeAppend(Bullet, n.originalFilename, '\n');
    FreeAppend(Bullet + n.originalFilename, " (link: /uploads/", '\n');
    FreeAppend(Bullet + n.originalFilename + " (link: /uploads/", n.storedFilename, '\n');
    FreeAppend(Bullet + n.originalFilename + " (link: /uploads/" + n.storedFilename, ")", '\n');
  }

  /** A fragment of a one-line query is itself one line. */
  lemma FragmentOneLine(query: string)
    requires Free(query, '\n')
    ensures Free(Fragment(ToLower(query)), '\n')
  {
    var lq := ToLower(query);
    assert Free(lq, '\n');
    FragmentShape(lq);
    SubsequenceFree(Fragment(lq), lq, '\n');
  }

  lemma FreeAround(p: string, x: string, q: string, c: char)
    requires c !in p && c !in q && Free(x, c)
    ensures Free(p + x + q, c)
  {
    FreeAppend(p, x, c);
    FreeAppend(p + x, q, c);
  }

  lemma NotesHeaderOneLine(course: string)
    requires Free(course, '\n')
    ensures Free("Found notes for " + course + ":", '\n')
  {
    FreeAround("Found notes for ", course, ":", '\n');
  }

  /** The notes reply: the clarification prompt when stripping leaves nothing,
      the "couldn't find" message naming the fragment when no note matches,
      otherwise a header naming the fragment and one line per matching note
      (read back line by line when the fragment and those notes hold no line
      break; `FragmentOneLine` gives the first for a one-line query). */
  lemma NotesReply(query: string, program: string, section: string, timetables: seq<Row>,
                   schedules: seq<Row>, contacts: seq<Row>, events: seq<Row>, notes: seq<Note>)
    requires Classify(ToLower(query)) == NotesQuery
    ensures var course := Fragment(ToLower(query));
            var rows := NotesFor(notes, course);
            var reply := Answer(query, program, section, timetables, schedules, contacts, events, notes);
            && (course == [] ==> reply == AskForCourse)
            && (course != [] && rows == [] ==> reply == NoNotes(course))
            && (course != [] && rows != [] && Free(course, '\n')
                && (forall k :: 0 <= k < |rows| ==> OneLineNote(rows[k])) ==>
                  Split(reply, '\n') == ["Found notes for " + course + ":"] + Map(rows, NoteLine))
  {
    var course := Fragment(ToLower(query));
    var rows := NotesFor(notes, course);
    if course != [] && rows != [] && Free(course, '\n') && (forall k :: 0 <= k < |rows| ==> OneLineNote(rows[k])) {
      NotesHeaderOneLine(course);
      forall k | 0 <= k < |rows| ensures Free(NoteLine(rows[k]), '\n') {
        NoteLineOneLine(rows[k]);
      }
      ListingLines("Found notes for " + course + ":", Map(rows, NoteLine));
    }
  }

  /** When stripping leaves nothing the notes table is not consulted: any two
      contents of it give the same reply, the clarification prompt. */
  lemma EmptyFragmentSkipsLookup(query: string, program: string, section: string, timetables: seq<Row>,
                                 schedules: seq<Row>, contacts: seq<Row>, events: seq<Row>,
                                 notes1: seq<Note>, notes2: seq<Note>)
    requires Classify(ToLower(query)) == NotesQuery
    requires Fragment(ToLower(query)) == []
    ensures Answer(query, program, section, timetables, schedules, contacts, events, notes1) == AskForCourse
    ensures Answer(query, program, section, timetables, schedules, contacts, events, notes2) == AskForCourse
  {
  }
}
