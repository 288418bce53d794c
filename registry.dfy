/** The database as an object: the mentors and students collections and the
    id counter, updated in place by the four writing handlers.  Each method
    is proved to leave the object in the state, and to send the reply, that
    the corresponding function of module Operations describes. */
module Service {
  import opened Records
  import Operations

  class Registry {
    var mentors: map<Id, Mentor>
    var students: map<Id, Student>
    var nextId: nat

    /** The current contents, as a value the query functions can read. */
    function Snapshot(): Store
      reads this
    {
      Store(mentors, students, nextId)
    }

    ghost predicate Valid()
      reads this
    {
      Snapshot().Valid()
    }

    constructor ()
      ensures Valid()
      ensures Snapshot() == EmptyStore()
    {
      mentors, students, nextId := map[], map[], 0;
    }

    /** POST /create-mentor */
    method CreateMentor(name: Option<string>, expertise: Option<string>) returns (reply: Reply<Doc<Mentor>>)
      requires Valid()
      modifies this
      ensures Valid()
      ensures (Snapshot(), reply) == Operations.CreateMentor(old(Snapshot()), name, expertise)
    {
      if !(Required(name) && Required(expertise)) {
        return Invalid;
      }
      var mentor := Mentor(name.value, expertise.value);
      var id := nextId;
      mentors := mentors[id := mentor];
      nextId := nextId + 1;
      reply := Ok(Doc(id, mentor));
    }

    /** POST /create-student */
    method CreateStudent(name: Option<string>, course: Option<string>) returns (reply: Reply<Doc<Student>>)
      requires Valid()
      modifies this
      ensures Valid()
      ensures (Snapshot(), reply) == Operations.CreateStudent(old(Snapshot()), name, course)
    {
      if !(Required(name) && Required(course)) {
        return Invalid;
      }
      var student := Student(name.value, course.value, None, None);
      var id := nextId;
      students := students[id := student];
      nextId := nextId + 1;
      reply := Ok(Doc(id, student));
    }

    /** POST /assign-students-to-mentor.  The filtered bulk update walks the
        id list; a listed student is updated when it exists and is still
        unassigned at that point, so an id listed twice is matched once. */
    method AssignStudentsToMentor(mentorId: Id, studentIds: seq<Id>) returns (reply: Reply<Operations.Assignment>)
      requires Valid()
      modifies this
      ensures Valid()
      ensures (Snapshot(), reply) == Operations.AssignStudents(old(Snapshot()), mentorId, studentIds)
    {
      if mentorId !in mentors {
        return NotFound(MentorKind);
      }
      var table, matchedCount := UpdateMany(students, studentIds, mentorId);
      if matchedCount == 0 {
        return NoEligible;
      }
      ghost var spec := Operations.AssignStudents(Snapshot(), mentorId, studentIds);
      assert spec.0 == Store(mentors, table, nextId);
      students := table;
      reply := Ok(Operations.Assignment(mentorId, studentIds));
    }

    /** POST /change-mentor */
    method ChangeMentor(studentId: Id, newMentorId: Id) returns (reply: Reply<Doc<Student>>)
      requires Valid()
      modifies this
      ensures Valid()
      ensures (Snapshot(), reply) == Operations.ChangeMentor(old(Snapshot()), studentId, newMentorId)
    {
      if studentId !in students {
        return NotFound(StudentKind);
      }
      var student := students[studentId];
      if newMentorId !in mentors {
        return NotFound(MentorKind);
      }
      student := student.(previousMentor := student.currentMentor);
      student := student.(currentMentor := Some(newMentorId));
      students := students[studentId := student];
      reply := Ok(Doc(studentId, student));
    }
  }

  /** The store's filtered bulk update over the students table: every
      listed id that names a student whose current mentor is null gets
      `mentorId` as current mentor.  It walks the id list and updates a
      listed student when it exists and is still unassigned at that point,
      so an id listed twice is matched once.  Returns the new table and the
      matched count. */
  method UpdateMany(students: map<Id, Student>, studentIds: seq<Id>, mentorId: Id)
    returns (table: map<Id, Student>, matchedCount: nat)
    ensures table == Operations.SetCurrentMentor(students, Operations.Eligible(students, studentIds), mentorId)
    ensures matchedCount == |Operations.Eligible(students, studentIds)|
  {
    table := students;
    matchedCount := 0;
    var i := 0;
    while i < |studentIds|
      invariant 0 <= i <= |studentIds|
      invariant table == Operations.SetCurrentMentor(students, Operations.Eligible(students, studentIds[..i]), mentorId)
      invariant matchedCount == |Operations.Eligible(students, studentIds[..i])|
    {
      var id := studentIds[i];
      ghost var matched := Operations.Eligible(students, studentIds[..i]);
      EligibleStep(students, studentIds, i);
      AssignStep(students, matched, id, mentorId);
      if id in table && table[id].currentMentor == None {
        table := table[id := table[id].(currentMentor := Some(mentorId))];
        matchedCount := matchedCount + 1;
      } else {
        assert id in matched ==> matched + {id} == matched;
      }
      i := i + 1;
    }
    assert studentIds[..i] == studentIds;
  }

  /** Matching one more unassigned, not yet matched student adds one to the
      matched count and updates that student alone. */
  lemma AssignStep(before: map<Id, Student>, matched: set<Id>, id: Id, mentorId: Id)
    requires forall x :: x in matched ==> x in before && before[x].currentMentor == None
    ensures var t := Operations.SetCurrentMentor(before, matched, mentorId);
            id in t && t[id].currentMentor == None <==>
              id in before && before[id].currentMentor == None && id !in matched
    ensures id in before && before[id].currentMentor == None && id !in matched ==>
              && |matched + {id}| == |matched| + 1
              && var t := Operations.SetCurrentMentor(before, matched, mentorId);
                 Operations.SetCurrentMentor(before, matched + {id}, mentorId) ==
                   t[id := t[id].(currentMentor := Some(mentorId))]
  {
  }

  /** How one more listed id changes the set the filter has matched so far:
      it joins exactly when it names an unassigned student not yet matched. */
  lemma EligibleStep(students: map<Id, Student>, studentIds: seq<Id>, i: nat)
    requires i < |studentIds|
    ensures var id := studentIds[i];
            var e := Operations.Eligible(students, studentIds[..i]);
            Operations.Eligible(students, studentIds[..i + 1]) ==
              if id in students && students[id].currentMentor == None then e + {id} else e
  {
    assert studentIds[..i + 1] == studentIds[..i] + [studentIds[i]];
  }
}
