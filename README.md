# Mentor/student registry — a Dafny model

This project models the core of a small REST backend that keeps a registry of mentors and students.

- A **mentor** has a name and an expertise.
- A **student** has a name, a course, a *current mentor* and a *previous mentor*. Both mentor fields are references that start out null.

Six request handlers act on the two collections:

1. create a mentor;
2. create a student;
3. assign a list of students to a mentor in one filtered bulk update, which only touches students who are still unassigned;
4. change a student's mentor, remembering the old one as the previous mentor;
5. list the students of a mentor;
6. look up a student's previous mentor.

The model has four modules:

- `Records` (records.dfy) holds the value types:
  - ids as naturals from one counter;
  - `Option`, `Mentor`, `Student`;
  - the reply datatype `Reply` (`Ok`, `NotFound`, `NoEligible`, `Invalid`, `NoPrevious`), which mirrors the handlers' HTTP status and body choices;
  - the `Store` value (two maps and the counter) with its invariant `Valid()`. The invariant says that ids come from the counter and are unique across the two collections, that stored records passed schema validation, and that every non-null mentor reference names an existing mentor.
- `Operations` (operations.dfy) has one function per handler. Each maps the store before a request to the store after it and the reply. Its contract states the handler's behaviour: which guard is checked first, what changes, and what does not.
- `Service` (registry.dfy) is the database as a class `Registry`. It has fields `mentors`, `students` and `nextId`. The four writing handlers are methods that update those fields in place. Each method is proved to produce the state and the reply that the matching `Operations` function specifies. The bulk update is the loop `UpdateMany`, which returns the new students table and the matched count.
- `Sessions` (sessions.dfy) holds properties that span several requests:
  - the invariant holds after any sequence of writing requests;
  - mentors are never changed or removed;
  - the queries see what the writers did (assign then list, change then previous);
  - the end-to-end run with Alice, Bob and Carl.

## Model

| member | source | states |
|---|---|---|
| `Operations.CreateMentor` | app.js:31-36 | Fails with `Invalid` exactly when name or expertise is missing or empty; the store is then unchanged. Otherwise it inserts one mentor with the given fields under an id that no mentor or student had. The reply carries that record, and every other record is unchanged. It keeps `Valid()`. |
| `Operations.CreateStudent` | app.js:39-44 | Fails with `Invalid` exactly when name or course is missing or empty; the store is then unchanged. Otherwise it inserts one student with the given name and course, both mentor references null, under a fresh id. No other record changes. It keeps `Valid()`. |
| `Operations.AssignStudents` | app.js:47-65 | An unknown mentor gives `NotFound(MentorKind)` and leaves the store unchanged. For a known mentor, the reply is `NoEligible` exactly when no listed id names an unassigned student; the store is then unchanged. Otherwise the reply is `Ok` echoing the mentor id and the id list. Exactly the listed, unassigned students get the new current mentor. Names, courses, previous mentors, mentors and the counter are unchanged. It keeps `Valid()`. |
| `Operations.ChangeMentor` | app.js:68-86 | The student is checked first: an unknown student gives `NotFound(StudentKind)`. The mentor is checked second: an unknown mentor gives `NotFound(MentorKind)`. Either failure leaves the store unchanged. On success the student's previous mentor is its old current mentor, including null, and its current mentor is the new one. Name, course and every other record are unchanged, and the reply is the updated student. It keeps `Valid()`. |
| `Operations.StudentsBelow` | app.js:92 | Lists the students below an id bound whose current mentor is the given one. Each entry's current mentor is populated. Ids are strictly ascending, and every such student is listed. |
| `Operations.ListStudents` | app.js:89-94 | Every listed entry is a stored student whose current mentor is the given id, with its fields and populated mentor, and no id appears twice. In a valid store an id is listed if and only if its student's current mentor is that id. It is never an error. |
| `Operations.PreviousMentor` | app.js:97-110 | Gives `NotFound(StudentKind)` exactly for an unknown student. It gives `NoPrevious` when the previous mentor is null. Otherwise it gives the stored mentor the previous-mentor field names. In a valid store a non-null previous mentor always gives `Ok`. |
| `Service.Registry.constructor` | app.js:27-28 | Starts with empty collections and a valid store. |
| `Service.Registry.CreateMentor` | app.js:31-36 | Updates the object's fields to the store `Operations.CreateMentor` gives and returns its reply, keeping `Valid()`. |
| `Service.Registry.CreateStudent` | app.js:39-44 | Updates the object's fields to the store `Operations.CreateStudent` gives and returns its reply, keeping `Valid()`. |
| `Service.Registry.AssignStudentsToMentor` | app.js:47-65 | Checks the mentor, then runs the bulk update and tests the matched count for zero. The new fields and the reply are those of `Operations.AssignStudents`, and `Valid()` is kept. |
| `Service.Registry.ChangeMentor` | app.js:68-86 | Copies the current mentor into the previous mentor, sets the new one and saves. The new fields and the reply are those of `Operations.ChangeMentor`, and `Valid()` is kept. |
| `Service.UpdateMany` | app.js:55-58 | The loop over the id list returns the table in which exactly the listed, unassigned students have the mentor set. The matched count is the number of such students, and an id listed twice counts once. |
| `Sessions.StepKeepsRecords` | app.js:31-86 | No writing request removes or alters a mentor, removes a student, or changes a student's name or course. The counter never decreases. |
| `Sessions.StepPreservesValid` | app.js:47-86 | Every writing handler keeps the invariant that every non-null mentor reference names an existing mentor. |
| `Sessions.RunPreservesValid` | app.js:22-23 | The reference invariant holds after any sequence of requests from a valid store. |
| `Sessions.RunKeepsMentors` | app.js:14-17 | Over any sequence of requests, mentors are never changed or deleted. |
| `Sessions.RunKeepsStudents` | app.js:19-24 | Over any sequence of requests, students are never deleted and keep their name and course. |
| `Sessions.ListStudentsPopulated` | app.js:92-93 | In a valid store, listing an unknown mentor gives the empty list. Every listed student's current mentor is populated with that mentor's document. |
| `Sessions.AssignThenList` | app.js:55-58 | After a successful assignment, the mentor's listed ids are the ids listed before plus exactly the matched students. |
| `Sessions.ChangeThenPrevious` | app.js:81-109 | After a change of mentor, the previous-mentor query returns the mentor the student had just before. If it had none, the query returns "no previous mentor". |
| `Sessions.EndToEnd` | app.js:31-110 | Create Alice (ML) and Bob (CS), assign Bob to Alice, create Carl (NLP) and move Bob to Carl. The assignment matches exactly one student. Bob's previous mentor is then Alice, his current mentor is Carl, and the previous-mentor query returns Alice's record. |

## Left out

- HTTP transport: routing, JSON parsing, response message strings and `app.listen` (app.js:1-5, 113-116). Each handler's outcome is a `Reply` value instead.
- The database connection and its connection string (app.js:8-11).
- Object id generation and casting. Ids are naturals from one counter. A malformed id makes the store's cast fail, and that rejection escapes the handler. Depending on the Express and Node versions, the client gets no reply, a 500, or the process exits. It is not modelled, and neither is an id missing from the request body. Every request carries well-formed ids.
- Mongoose's casting of non-string field values to strings. A request field is `None` (absent or null) or a string. The `required` validator accepts a present, non-empty string.
- A failed validation makes `save` reject, and the rejection escapes the handler. What the client then sees depends on the Express and Node versions, which app.js does not pin: no reply, a 500, or the process exits. The model reports `Invalid` with nothing inserted.
- The bulk assignment reply carries only the mentor id and the id list, as in the source. The matched count is used only for the zero test.
- The read-then-save race in change-mentor, and any interleaving of concurrent requests. Every request is one atomic step.
- Store-level I/O failures (lost connection, rejected `save`), which the source never catches.
- The order of `find` results is not guaranteed by the store. The model lists students in ascending id order, which is creation order.
- `Operations.Resolve` and `Operations.SetCurrentMentor` are the model's definitions of the store's `populate` and of the bulk update's field assignment. They are taken as given, and their contracts only spell out those definitions.
- `Service.Registry` has no methods for the two GET handlers. They read the store without changing it, so they are the functions `Operations.ListStudents` and `Operations.PreviousMentor` applied to `Snapshot()`.
- Operations.ListStudents: scans the ids below the counter, so the "every student of the mentor is listed" clause is stated for valid stores, where every stored id is below the counter.
