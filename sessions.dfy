/** Properties of the registry across requests: the store invariant (every
    non-null mentor reference names an existing mentor) holds after any
    sequence of writing requests, mentors are never changed or removed, and
    the queries observe what the writers did. */
module Sessions {
  import opened Records
  import opened Operations

  /** A writing request, with its body's fields.  The two GET handlers are
      functions of the store and cannot change it. */
  datatype Request =
    | CreateMentorRequest(name: Option<string>, expertise: Option<string>)
    | CreateStudentRequest(name: Option<string>, course: Option<string>)
    | AssignRequest(mentorId: Id, studentIds: seq<Id>)
    | ChangeMentorRequest(studentId: Id, newMentorId: Id)

  function Step(s: Store, req: Request): Store
  {
    match req
    case CreateMentorRequest(name, expertise) => CreateMentor(s, name, expertise).0
    case CreateStudentRequest(name, course) => CreateStudent(s, name, course).0
    case AssignRequest(mentorId, studentIds) => AssignStudents(s, mentorId, studentIds).0
    case ChangeMentorRequest(studentId, newMentorId) => ChangeMentor(s, studentId, newMentorId).0
  }

  /** The store after the requests have been handled one after another. */
  function Run(s: Store, reqs: seq<Request>): Store
    decreases |reqs|
  {
    if reqs == [] then s else Run(Step(s, reqs[0]), reqs[1..])
  }

  /** No request removes or alters a mentor or a student's name and course,
      and the id counter never goes back. */
  lemma StepKeepsRecords(s: Store, req: Request)
    requires s.Valid()
    ensures var t := Step(s, req);
            && s.mentors.Keys <= t.mentors.Keys
            && (forall id :: id in s.mentors ==> t.mentors[id] == s.mentors[id])
            && s.students.Keys <= t.students.Keys
            && (forall id :: id in s.students ==>
                  t.students[id].name == s.students[id].name && t.students[id].course == s.students[id].course)
            && s.nextId <= t.nextId
  {
    match req
    case CreateMentorRequest(name, expertise) =>
      assert s.nextId !in s.mentors;
    case CreateStudentRequest(name, course) =>
      assert s.nextId !in s.students;
    case AssignRequest(_, _) =>
    case ChangeMentorRequest(_, _) =>
  }

  /** Every writing handler keeps the store invariant: both writers of a
      mentor reference check first that the mentor exists, and mentors are
      never removed. */
  lemma StepPreservesValid(s: Store, req: Request)
    requires s.Valid()
    ensures Step(s, req).Valid()
  {
    match req
    case CreateMentorRequest(name, expertise) =>
    case CreateStudentRequest(name, course) =>
    case AssignRequest(_, _) =>
    case ChangeMentorRequest(_, _) =>
  }

  /** Hence every store reachable from a valid one, in particular from the
      empty store, has only valid mentor references. */
  lemma {:induction false} RunPreservesValid(s: Store, reqs: seq<Request>)
    requires s.Valid()
    ensures Run(s, reqs).Valid()
    decreases |reqs|
  {
    if reqs != [] {
      StepPreservesValid(s, reqs[0]);
      RunPreservesValid(Step(s, reqs[0]), reqs[1..]);
    }
  }

  /** Mentors are never changed or removed, over any sequence of requests. */
  lemma {:induction false} RunKeepsMentors(s: Store, reqs: seq<Request>)
    requires s.Valid()
    ensures s.mentors.Keys <= Run(s, reqs).mentors.Keys
    ensures forall id :: id in s.mentors ==> Run(s, reqs).mentors[id] == s.mentors[id]
    decreases |reqs|
  {
    if reqs != [] {
      StepKeepsRecords(s, reqs[0]);
      StepPreservesValid(s, reqs[0]);
      RunKeepsMentors(Step(s, reqs[0]), reqs[1..]);
    }
  }

  /** Students are never removed and keep their name and course. */
  lemma {:induction false} RunKeepsStudents(s: Store, reqs: seq<Request>)
    requires s.Valid()
    ensures s.students.Keys <= Run(s, reqs).students.Keys
    ensures forall id :: id in s.students ==>
              && Run(s, reqs).students[id].name == s.students[id].name
              && Run(s, reqs).students[id].course == s.students[id].course
    decreases |reqs|
  {
    if reqs != [] {
      StepKeepsRecords(s, reqs[0]);
      StepPreservesValid(s, reqs[0]);
      RunKeepsStudents(Step(s, reqs[0]), reqs[1..]);
    }
  }

  /** In a valid store nobody is listed under a mentor that does not exist,
      and every listed student carries its populated current mentor. */
  lemma ListStudentsPopulated(s: Store, mentorId: Id)
    requires s.Valid()
    ensures mentorId !in s.mentors ==> ListStudents(s, mentorId) == []
    ensures forall i :: 0 <= i < |ListStudents(s, mentorId)| ==>
              ListStudents(s, mentorId)[i].currentMentor == Some(Doc(mentorId, s.mentors[mentorId]))
  {
    var r := ListStudents(s, mentorId);
    if r != [] {
      assert s.RefersToMentor(s.students[r[0].id].currentMentor);
    }
  }

  /** A successful assignment adds exactly the matched students to the
      mentor's list and leaves the rest of it as it was. */
  lemma AssignThenList(s: Store, mentorId: Id, studentIds: seq<Id>)
    requires s.Valid()
    ensures var r := AssignStudents(s, mentorId, studentIds);
            r.1.Ok? ==>
              IdsOf(ListStudents(r.0, mentorId)) == IdsOf(ListStudents(s, mentorId)) + Eligible(s.students, studentIds)
  {
    var r := AssignStudents(s, mentorId, studentIds);
    if r.1.Ok? {
      var before, after := IdsOf(ListStudents(s, mentorId)), IdsOf(ListStudents(r.0, mentorId));
      var matched := Eligible(s.students, studentIds);
      forall id | id in after ensures id in before + matched {
        assert id in s.students;
      }
      forall id | id in before + matched ensures id in after {
        assert id in r.0.students;
      }
    }
  }

  /** After a change of mentor the previous-mentor query returns the mentor
      the student had just before, or "no previous mentor" if it had none. */
  lemma ChangeThenPrevious(s: Store, studentId: Id, newMentorId: Id)
    requires s.Valid()
    requires studentId in s.students && newMentorId in s.mentors
    ensures var after := ChangeMentor(s, studentId, newMentorId).0;
            PreviousMentor(after, studentId) ==
              match s.students[studentId].currentMentor
              case None => NoPrevious
              case Some(m) => Ok(Doc(m, s.mentors[m]))
  {
    assert s.RefersToMentor(s.students[studentId].currentMentor);
  }

  /** The end-to-end run: Alice (ML) and Bob (CS) are created, Bob is
      assigned to Alice with a matched count of one, Carl (NLP) is created,
      Bob moves to Carl, and the previous-mentor query for Bob returns Alice. */
  lemma EndToEnd()
    ensures var s0 := EmptyStore();
            var (s1, alice) := CreateMentor(s0, Some("Alice"), Some("ML"));
            var (s2, bob) := CreateStudent(s1, Some("Bob"), Some("CS"));
            alice.Ok? && bob.Ok? &&
            var (s3, outcome) := AssignStudents(s2, alice.value.id, [bob.value.id]);
            var (s4, carl) := CreateMentor(s3, Some("Carl"), Some("NLP"));
            |Eligible(s2.students, [bob.value.id])| == 1 &&
            outcome.Ok? && s3.students[bob.value.id].currentMentor == Some(alice.value.id) &&
            carl.Ok? &&
            var (s5, changed) := ChangeMentor(s4, bob.value.id, carl.value.id);
            changed.Ok?
            && changed.value.body.previousMentor == Some(alice.value.id)
            && changed.value.body.currentMentor == Some(carl.value.id)
            && PreviousMentor(s5, bob.value.id) == Ok(Doc(alice.value.id, Mentor("Alice", "ML")))
  {
    var s0 := EmptyStore();
    var (s1, alice) := CreateMentor(s0, Some("Alice"), Some("ML"));
    var (s2, bob) := CreateStudent(s1, Some("Bob"), Some("CS"));
    assert Eligible(s2.students, [bob.value.id]) == {bob.value.id};
  }
}
