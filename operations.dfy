/** The six request handlers of the registry, each as a function from the
    store before the request to the store after it and the reply sent.
    Each request is one atomic step. */
module Operations {
  import opened Records

  // ---------------------------------------------------------------------
  // Creation
  // ---------------------------------------------------------------------

  /** POST /create-mentor: validate both required fields, then insert a new
      mentor under a fresh id. */
  function CreateMentor(s: Store, name: Option<string>, expertise: Option<string>): (r: (Store, Reply<Doc<Mentor>>))
    ensures r.1.Ok? || r.1.Invalid?
    ensures r.1.Invalid? <==> !(Required(name) && Required(expertise))
    ensures r.1.Invalid? ==> r.0 == s
    ensures r.1.Ok? ==>
              && r.1.value.body == Mentor(name.value, expertise.value)
              && r.0.mentors.Keys == s.mentors.Keys + {r.1.value.id}
              && r.0.mentors[r.1.value.id] == r.1.value.body
              && (forall id :: id in s.mentors && id != r.1.value.id ==> r.0.mentors[id] == s.mentors[id])
              && r.0.students == s.students
    ensures s.Valid() && r.1.Ok? ==> r.1.value.id !in s.mentors && r.1.value.id !in s.students
    ensures s.Valid() ==> r.0.Valid()
  {
    if !(Required(name) && Required(expertise)) then
      (s, Invalid)
    else
      var id := s.nextId;
      var m := Mentor(name.value, expertise.value);
      (s.(mentors := s.mentors[id := m], nextId := id + 1), Ok(Doc(id, m)))
  }

  /** POST /create-student: validate both required fields, then insert a new
      student with both mentor references null. */
  function CreateStudent(s: Store, name: Option<string>, course: Option<string>): (r: (Store, Reply<Doc<Student>>))
    ensures r.1.Ok? || r.1.Invalid?
    ensures r.1.Invalid? <==> !(Required(name) && Required(course))
    ensures r.1.Invalid? ==> r.0 == s
    ensures r.1.Ok? ==>
              && r.1.value.body.name == name.value
              && r.1.value.body.course == course.value
              && r.1.value.body.currentMentor == None
              && r.1.value.body.previousMentor == None
              && r.0.students.Keys == s.students.Keys + {r.1.value.id}
              && r.0.students[r.1.value.id] == r.1.value.body
              && (forall id :: id in s.students && id != r.1.value.id ==> r.0.students[id] == s.students[id])
              && r.0.mentors == s.mentors
    ensures s.Valid() && r.1.Ok? ==> r.1.value.id !in s.mentors && r.1.value.id !in s.students
    ensures s.Valid() ==> r.0.Valid()
  {
    if !(Required(name) && Required(course)) then
      (s, Invalid)
    else
      var id := s.nextId;
      var st := Student(name.value, course.value, None, None);
      (s.(students := s.students[id := st], nextId := id + 1), Ok(Doc(id, st)))
  }

  // ---------------------------------------------------------------------
  // Bulk assignment
  // ---------------------------------------------------------------------

  /** The echo of a successful assignment: the mentor id and the id list. */
  datatype Assignment = Assignment(mentorId: Id, studentIds: seq<Id>)

  /** The documents the bulk update's filter matches: listed ids that name a
      stored student whose current mentor is null.  Its size is the
      update's matched count (a repeated id matches once). */
  function Eligible(students: map<Id, Student>, studentIds: seq<Id>): set<Id>
  {
    set id | id in studentIds && id in students && students[id].currentMentor == None
  }

  /** The students table after the bulk update has given every student in
      `matched` the current mentor `mentorId`. */
  function SetCurrentMentor(students: map<Id, Student>, matched: set<Id>, mentorId: Id): (t: map<Id, Student>)
    ensures t.Keys == students.Keys
    ensures forall id :: id in students && id !in matched ==> t[id] == students[id]
    ensures forall id :: id in students && id in matched ==>
              t[id] == students[id].(currentMentor := Some(mentorId))
  {
    map id | id in students :: if id in matched then students[id].(currentMentor := Some(mentorId)) else students[id]
  }

  /** POST /assign-students-to-mentor: look the mentor up first (404 if it
      is missing, and then nothing is updated); otherwise set the current
      mentor of every listed, unassigned student, and reply 400 if the
      filter matched nothing. */
  function AssignStudents(s: Store, mentorId: Id, studentIds: seq<Id>): (r: (Store, Reply<Assignment>))
    ensures mentorId !in s.mentors ==> r == (s, NotFound(MentorKind))
    ensures mentorId in s.mentors ==> (r.1.NoEligible? <==> Eligible(s.students, studentIds) == {})
    ensures mentorId in s.mentors && Eligible(s.students, studentIds) != {} ==>
              r.1 == Ok(Assignment(mentorId, studentIds))
    ensures !r.1.Ok? ==> r.0 == s
    ensures r.0.mentors == s.mentors && r.0.nextId == s.nextId
    ensures r.0.students.Keys == s.students.Keys
    ensures forall id :: id in s.students ==>
              && r.0.students[id].name == s.students[id].name
              && r.0.students[id].course == s.students[id].course
              && r.0.students[id].previousMentor == s.students[id].previousMentor
    ensures forall id :: id in s.students ==>
              r.0.students[id].currentMentor ==
                if r.1.Ok? && id in studentIds && s.students[id].currentMentor == None
                then Some(mentorId)
                else s.students[id].currentMentor
    ensures s.Valid() ==> r.0.Valid()
  {
    if mentorId !in s.mentors then
      (s, NotFound(MentorKind))
    else
      var matched := Eligible(s.students, studentIds);
      if matched == {} then
        (s, NoEligible)
      else
        (s.(students := SetCurrentMentor(s.students, matched, mentorId)), Ok(Assignment(mentorId, studentIds)))
  }

  // ---------------------------------------------------------------------
  // Change of mentor
  // ---------------------------------------------------------------------

  /** POST /change-mentor: look the student up, then the new mentor (each a
      404 when missing, with nothing written); then move the current mentor
      into the previous-mentor field and store the new one. */
  function ChangeMentor(s: Store, studentId: Id, newMentorId: Id): (r: (Store, Reply<Doc<Student>>))
    ensures studentId !in s.students ==> r == (s, NotFound(StudentKind))
    ensures studentId in s.students && newMentorId !in s.mentors ==> r == (s, NotFound(MentorKind))
    ensures studentId in s.students && newMentorId in s.mentors ==>
              && r.1.Ok?
              && r.1.value.id == studentId
              && r.0.students.Keys == s.students.Keys
              && r.0.students[studentId] == r.1.value.body
              && r.1.value.body.previousMentor == s.students[studentId].currentMentor
              && r.1.value.body.currentMentor == Some(newMentorId)
              && r.1.value.body.name == s.students[studentId].name
              && r.1.value.body.course == s.students[studentId].course
              && (forall id :: id in s.students && id != studentId ==> r.0.students[id] == s.students[id])
    ensures r.0.mentors == s.mentors && r.0.nextId == s.nextId
    ensures s.Valid() ==> r.0.Valid()
  {
    if studentId !in s.students then
      (s, NotFound(StudentKind))
    else if newMentorId !in s.mentors then
      (s, NotFound(MentorKind))
    else
      var before := s.students[studentId];
      var updated := before.(previousMentor := before.currentMentor, currentMentor := Some(newMentorId));
      (s.(students := s.students[studentId := updated]), Ok(Doc(studentId, updated)))
  }

  // ---------------------------------------------------------------------
  // Queries
  // ---------------------------------------------------------------------

  /** `populate`: a reference replaced by the mentor document it names, or
      null when it is null or names no stored mentor. */
  function Resolve(s: Store, ref: Option<Id>): (m: Option<Doc<Mentor>>)
    ensures m.Some? <==> ref.Some? && ref.value in s.mentors
    ensures m.Some? ==> m.value.id == ref.value && m.value.body == s.mentors[ref.value]
  {
    if ref.Some? && ref.value in s.mentors then Some(Doc(ref.value, s.mentors[ref.value])) else None
  }

  /** A student as listed by GET /students/:mentorId, current mentor populated. */
  datatype Listed = Listed(
    id: Id,
    name: string,
    course: string,
    currentMentor: Option<Doc<Mentor>>,
    previousMentor: Option<Id>)

  function ListedOf(s: Store, id: Id): Listed
    requires id in s.students
  {
    var st := s.students[id];
    Listed(id, st.name, st.course, Resolve(s, st.currentMentor), st.previousMentor)
  }

  function IdsOf(r: seq<Listed>): set<Id>
  {
    set x | x in r :: x.id
  }

  /** The students with an id below `n` whose current mentor is `mentorId`,
      in ascending id order. */
  function StudentsBelow(s: Store, mentorId: Id, n: nat): (r: seq<Listed>)
    ensures forall i :: 0 <= i < |r| ==>
              && r[i].id < n
              && r[i].id in s.students
              && s.students[r[i].id].currentMentor == Some(mentorId)
              && r[i] == ListedOf(s, r[i].id)
    ensures forall i, j :: 0 <= i < j < |r| ==> r[i].id < r[j].id
    ensures forall id :: id < n && id in s.students && s.students[id].currentMentor == Some(mentorId) ==>
              id in IdsOf(r)
    decreases n
  {
    if n == 0 then
      []
    else
      var rest := StudentsBelow(s, mentorId, n - 1);
      var id := n - 1;
      if id in s.students && s.students[id].currentMentor == Some(mentorId) then
        assert IdsOf(rest + [ListedOf(s, id)]) == IdsOf(rest) + {id};
        rest + [ListedOf(s, id)]
      else
        rest
  }

  /** GET /students/:mentorId: every student whose current mentor is
      `mentorId`, in creation order, never an error. */
  function ListStudents(s: Store, mentorId: Id): (r: seq<Listed>)
    ensures forall i :: 0 <= i < |r| ==>
              && r[i].id in s.students
              && s.students[r[i].id].currentMentor == Some(mentorId)
              && r[i] == ListedOf(s, r[i].id)
    ensures forall i, j :: 0 <= i < j < |r| ==> r[i].id != r[j].id
    ensures s.Valid() ==>
              forall id :: id in IdsOf(r) <==> id in s.students && s.students[id].currentMentor == Some(mentorId)
  {
    StudentsBelow(s, mentorId, s.nextId)
  }

  /** GET /previous-mentor/:studentId: 404 for an unknown student, the
      "no previous mentor" reply when the populated reference is null, and
      otherwise the previous mentor's document. */
  function PreviousMentor(s: Store, studentId: Id): (r: Reply<Doc<Mentor>>)
    ensures r.Ok? || r.NotFound? || r.NoPrevious?
    ensures r.NotFound? <==> studentId !in s.students
    ensures r.NotFound? ==> r.missing == StudentKind
    ensures r.Ok? ==>
              && s.students[studentId].previousMentor == Some(r.value.id)
              && r.value.id in s.mentors
              && r.value.body == s.mentors[r.value.id]
    ensures studentId in s.students && s.students[studentId].previousMentor == None ==> r == NoPrevious
    ensures s.Valid() && studentId in s.students && s.students[studentId].previousMentor.Some? ==> r.Ok?
  {
    if studentId !in s.students then
      NotFound(StudentKind)
    else
      match Resolve(s, s.students[studentId].previousMentor)
      case None => NoPrevious
      case Some(m) => Ok(m)
  }
}
