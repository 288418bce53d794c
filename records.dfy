/** The two collections of the mentor/student registry, as values.

    A mentor is a name and an expertise; a student is a name, a course and two
    optional references to mentors.  Identifiers are drawn from one counter, so
    no mentor and student ever share an id, just as the document store's
    object ids are unique across collections.
 */
module Records {

  /** An object id, abstracted to a natural number handed out by a counter. */
  type Id = nat

  datatype Option<T> = None | Some(value: T)

  datatype Mentor = Mentor(name: string, expertise: string)

  /** `None` in a mentor field is the schema's `null` default. */
  datatype Student = Student(
    name: string,
    course: string,
    currentMentor: Option<Id>,
    previousMentor: Option<Id>)

  /** A stored record together with its id, as the handlers send it back. */
  datatype Doc<T> = Doc(id: Id, body: T)

  /** Which lookup failed, telling "Mentor not found" from "Student not found". */
  datatype Kind = MentorKind | StudentKind

  /** The outcome of a handler: `Ok` is a 200 reply, `NotFound` a 404,
      `NoEligible` the 400 of a bulk assignment that matched nothing,
      `Invalid` a rejected save, `NoPrevious` the "no previous mentor" reply. */
  datatype Reply<T> = Ok(value: T) | NotFound(missing: Kind) | NoEligible | Invalid | NoPrevious

  /** A required String schema path accepts a present, non-empty string.
      `None` stands for a field that is absent or null in the request body. */
  predicate Required(field: Option<string>)
  {
    field.Some? && field.value != ""
  }

  /** The contents of the database at one moment. */
  datatype Store = Store(mentors: map<Id, Mentor>, students: map<Id, Student>, nextId: nat)
  {
    /** A reference is either null or names a stored mentor. */
    predicate RefersToMentor(ref: Option<Id>)
    {
      ref.None? || ref.value in mentors
    }

    /** Every id was issued by the counter, ids are unique across the two
        collections, every stored record passed schema validation, and every
        non-null mentor reference names an existing mentor. */
    predicate Valid()
    {
      && (forall id :: id in mentors ==> id < nextId)
      && (forall id :: id in students ==> id < nextId)
      && mentors.Keys !! students.Keys
      && (forall id :: id in mentors ==> mentors[id].name != "" && mentors[id].expertise != "")
      && (forall id :: id in students ==> students[id].name != "" && students[id].course != "")
      && (forall id :: id in students ==> RefersToMentor(students[id].currentMentor))
      && (forall id :: id in students ==> RefersToMentor(students[id].previousMentor))
    }
  }

  /** The database before any request. */
  function EmptyStore(): (s: Store)
    ensures s.Valid() && s.mentors == map[] && s.students == map[]
  {
    Store(map[], map[], 0)
  }
}
