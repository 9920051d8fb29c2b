/** What the model of `/ask` gives for particular queries: the intent chosen
    for queries naming several keywords, and the course fragment and reply for
    a notes query. */
module ChatbotExamples {
  import opened Strings
  import opened Schema
  import opened Chatbot

  /** "is the exam before the event" names an exam and an event and gets the exam reply. */
  lemma ExamBeforeEventQuery(q: string)
    requires q == "is the exam before the event"
    ensures Classify(q) == ExamQuery
  {
    assert 'l' !in q && 'c' !in q;
    assert OccursAt(q, "exam", 7);
    ContainsIff(q, "exam");
    MissingCharExcludes(q, "timetable", 'l');
    MissingCharExcludes(q, "class schedule", 'c');
  }

  /** "exam timetable" names an exam and the timetable and gets the timetable reply. */
  lemma ExamTimetableQuery(q: string)
    requires q == "exam timetable"
    ensures Classify(q) == TimetableQuery
  {
    assert OccursAt(q, "timetable", 5);
    ContainsIff(q, "timetable");
  }

  /** "my schedule" names no keyword: a bare "schedule" selects nothing and the help text is the reply. */
  lemma BareScheduleIsHelp(q: string)
    requires q == "my schedule"
    ensures Classify(q) == HelpQuery
  {
    assert 't' !in q && 'a' !in q && 'x' !in q && 'f' !in q && 'v' !in q && 'n' !in q;
    MissingCharExcludes(q, "timetable", 't');
    MissingCharExcludes(q, "class schedule", 'a');
    MissingCharExcludes(q, "exam", 'x');
    MissingCharExcludes(q, "faculty", 'f');
    MissingCharExcludes(q, "contact", 't');
    MissingCharExcludes(q, "event", 'v');
    MissingCharExcludes(q, "note", 'n');
  }


  /** Naming the timetable as well overrides the exam-before-event rule. */
  lemma ExamEventTimetableQuery(q: string)
    requires q == "exam event timetable"
    ensures Contains(q, "exam") && Contains(q, "event")
    ensures Classify(q) == TimetableQuery
  {
    assert OccursAt(q, "exam", 0);
    assert OccursAt(q, "event", 5);
    assert OccursAt(q, "timetable", 11);
    ContainsIff(q, "exam");
    ContainsIff(q, "event");
    ContainsIff(q, "timetable");
  }

  lemma NoNotesForBefore10(q: string)
    requires q == "can i get notes for physics"
    ensures forall j :: 0 <= j < 10 ==> !WholeWordAt(q, "notes for", j)
  {
    forall j | 0 <= j < 10 ensures !WholeWordAt(q, "notes for", j) {
    }
  }

  lemma PhysicsDropsNotesFor(q: string)
    requires q == "can i get notes for physics"
    ensures ReplaceFrom(q, "notes for", 0) == "can i get  physics"
    ensures RemoveAll(q, [Fillers[0]]) == "can i get  physics"
  {
    NoNotesForBefore10(q);
    DropSingle(q, "notes for", 10);
    assert q[..10] + q[19..] == "can i get  physics";
  }

  lemma NoGetBefore6(s: string)
    requires s == "can i get  physics"
    ensures forall j :: 0 <= j < 6 ==> !WholeWordAt(s, "get", j)
    ensures forall j :: 9 <= j < |s| ==> !WholeWordAt(s, "get", j)
  {
    forall j | 0 <= j < 6 ensures !WholeWordAt(s, "get", j) {
    }
    forall j | 9 <= j < |s| ensures !WholeWordAt(s, "get", j) {
    }
  }

  lemma PhysicsDropsGet(s: string)
    requires s == "can i get  physics"
    ensures ReplaceFrom(s, "get", 0) == "can i   physics"
    ensures RemoveAll(s, [Fillers[10]]) == "can i   physics"
  {
    NoGetBefore6(s);
    DropSingle(s, "get", 6);
    assert s[..6] + s[9..] == "can i   physics";
  }

  /** None of the fillers between "notes for" and "get" occurs once "notes for" is gone. */
  lemma PhysicsKeepsMiddle(s1: string)
    requires s1 == "can i get  physics"
    ensures RemoveAll(s1, Fillers[1..10]) == s1
  {
    assert 'o' !in s1 && 'm' !in s1 && 'w' !in s1 && 'v' !in s1;
    var middle := Fillers[1..10];
    assert middle == ["notes on", "note for", "note on", "notes", "note", "provide", "me", "with", "give"];
    forall k | 0 <= k < |middle| ensures |middle[k]| > 0 && !Contains(s1, middle[k]) {
      if k < 6 {
        MissingCharExcludes(s1, middle[k], 'o');
      } else if k == 6 {
        MissingCharExcludes(s1, middle[k], 'm');
      } else if k == 7 {
        MissingCharExcludes(s1, middle[k], 'w');
      } else {
        MissingCharExcludes(s1, middle[k], 'v');
      }
    }
    RemoveAllAbsent(s1, middle);
  }

  /** "can", "i" and a bare "for" are not filler phrases: they stay in the fragment. */
  lemma PhysicsFragment(q: string)
    requires q == "can i get notes for physics"
    ensures Fragment(q) == "can i   physics"
  {
    var middle := Fillers[1..10];
    assert Fillers == [Fillers[0]] + middle + [Fillers[10]];
    RemoveAllAppend(q, [Fillers[0]], middle);
    RemoveAllAppend(q, [Fillers[0]] + middle, [Fillers[10]]);
    PhysicsDropsNotesFor(q);
    var s1 := RemoveAll(q, [Fillers[0]]);
    PhysicsKeepsMiddle(s1);
    PhysicsDropsGet(s1);
    var s2 := RemoveAll(s1, [Fillers[10]]);
    assert RemoveAll(q, Fillers) == s2;
    TrimPhysics(s2);
  }

  lemma TrimPhysics(s: string)
    requires s == "can i   physics"
    ensures Trim(s) == s
  {
  }

  /** "note" inside "notebook" is not a whole word, so a query without a filler word is only trimmed. */
  lemma NotebookFragment(q: string)
    requires q == "dbms notebook"
    ensures Fragment(q) == "dbms notebook"
  {
    assert 'f' !in q && 'p' !in q && 'w' !in q && 'g' !in q;
    forall k, j | 0 <= k < |Fillers| && 0 <= j < |q| ensures !WholeWordAt(q, Fillers[k], j) {
      var w := Fillers[k];
      if k == 0 || k == 2 {
        MissingCharExcludes(q, w, 'f');
        ContainsIff(q, w);
      } else if k == 6 {
        MissingCharExcludes(q, w, 'p');
        ContainsIff(q, w);
      } else if k == 8 {
        MissingCharExcludes(q, w, 'w');
        ContainsIff(q, w);
      } else if k == 9 || k == 10 {
        MissingCharExcludes(q, w, 'g');
        ContainsIff(q, w);
      }
    }
    FragmentWithoutFillers(q);
    TrimNotebook(q);
  }

  lemma TrimNotebook(s: string)
    requires s == "dbms notebook"
    ensures Trim(s) == s
  {
  }

  lemma PhysicsHasNoCapitals(q: string)
    requires q == "can i get notes for physics"
    ensures IsLower(q)
  {
  }

  /** The query is already lower case, so lower-casing leaves it as it is. */
  lemma PhysicsIsLower(q: string)
    requires q == "can i get notes for physics"
    ensures ToLower(q) == q
  {
    PhysicsHasNoCapitals(q);
    LowerUnchanged(q);
  }

  lemma LowerUnchanged(s: string)
    requires IsLower(s)
    ensures ToLower(s) == s
  {
    forall i | 0 <= i < |s| ensures ToLower(s)[i] == s[i] {
    }
  }

  lemma OccursAtStart(s: string, p: string, j: int)
    ensures OccursAt(s, p, j) && |p| >= 2 ==> s[j] == p[0] && s[j + 1] == p[1]
  {
    if OccursAt(s, p, j) && |p| >= 2 {
      assert s[j..j + |p|][0] == s[j] && s[j..j + |p|][1] == s[j + 1];
    }
  }

  lemma NoContactInPhysics(q: string)
    requires q == "can i get notes for physics"
    ensures !Contains(q, "contact")
  {
    forall j | 0 <= j < 21 ensures !OccursAt(q, "contact", j) {
      assert !(q[j] == 'c' && q[j + 1] == 'o');
      OccursAtStart(q, "contact", j);
    }
    ContainsIff(q, "contact");
  }

  lemma NoTimetableInPhysics(q: string)
    requires q == "can i get notes for physics"
    ensures !Contains(q, "timetable") && !Contains(q, "class schedule")
  {
    assert 'm' !in q && 'l' !in q;
    MissingCharExcludes(q, "timetable", 'm');
    MissingCharExcludes(q, "class schedule", 'l');
  }

  lemma NoExamFacultyEventInPhysics(q: string)
    requires q == "can i get notes for physics"
    ensures !Contains(q, "exam") && !Contains(q, "faculty") && !Contains(q, "event")
  {
    assert 'x' !in q && 'u' !in q && 'v' !in q;
    MissingCharExcludes(q, "exam", 'x');
    MissingCharExcludes(q, "faculty", 'u');
    MissingCharExcludes(q, "event", 'v');
  }

  /** The query is a notes query: it mentions "note" and nothing earlier in the chain. */
  lemma PhysicsIsNotesQuery(q: string)
    requires q == "can i get notes for physics"
    ensures Classify(q) == NotesQuery
  {
    NoTimetableInPhysics(q);
    NoExamFacultyEventInPhysics(q);
    NoContactInPhysics(q);
    NoteInPhysics(q);
    OnlyNoteMentioned(q);
  }

  lemma NoteInPhysics(q: string)
    requires q == "can i get notes for physics"
    ensures Contains(q, "note")
  {
    assert OccursAt(q, "note", 10);
    ContainsIff(q, "note");
  }

  /** The last test of the chain that a query passes decides it. */
  lemma OnlyNoteMentioned(q: string)
    requires !Contains(q, "timetable") && !Contains(q, "class schedule") && !Contains(q, "exam")
    requires !Contains(q, "faculty") && !Contains(q, "contact") && !Contains(q, "event")
    requires Contains(q, "note")
    ensures Classify(q) == NotesQuery
  {
  }

  /** A note for "Physics 101" is not found by the fragment the stripping
      leaves, because "can" and "i" stay in it. */
  lemma PhysicsNoteMissed(course: string, n: Note)
    requires course == "can i   physics" && n.courseName == "Physics 101"
    ensures NotesFor([n], course) == []
  {
    var name := ToLower(n.courseName);
    assert |name| == 11;
    assert forall i :: 0 <= i < 11 ==> name[i] == LowerChar(n.courseName[i]);
    assert 'a' !in name;
    MissingCharExcludes(name, course, 'a');
  }

  /** Asking for physics notes when the only note is for "Physics 101" gets
      the "couldn't find" reply naming the unstripped words. */
  lemma PhysicsReply(q: string, n: Note, program: string, section: string, timetables: seq<Row>,
                     schedules: seq<Row>, contacts: seq<Row>, events: seq<Row>)
    requires q == "can i get notes for physics" && n.courseName == "Physics 101"
    ensures Answer(q, program, section, timetables, schedules, contacts, events, [n])
         == NoNotes("can i   physics")
  {
    PhysicsIsLower(q);
    PhysicsIsNotesQuery(q);
    PhysicsFragment(q);
    PhysicsNoteMissed("can i   physics", n);
    NothingFoundReply(q, n, program, section, timetables, schedules, contacts, events, "can i   physics");
  }

  lemma NothingFoundReply(q: string, n: Note, program: string, section: string, timetables: seq<Row>,
                          schedules: seq<Row>, contacts: seq<Row>, events: seq<Row>, course: string)
    requires ToLower(q) == q && Classify(q) == NotesQuery
    requires Fragment(q) == course && course != [] && NotesFor([n], course) == []
    ensures Answer(q, program, section, timetables, schedules, contacts, events, [n]) == NoNotes(course)
  {
  }
}
