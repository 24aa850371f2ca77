# Student CRUD service: a Dafny model

The system is a small HTTP service over one entity, `Student` (id, name, phone, grade,
license), stored in a relational table through Panache. `Student.java` declares the record,
its Bean Validation constraints and a set of static data-access helpers; `StudentResource.java`
maps the routes under `/api/students` to those data-access calls and to HTTP status codes.

The model has five modules:

- `Wrappers` — `Option`, where the source uses `null` as its not-found signal.
- `CaseFolding` — ASCII lower-casing, standing for `String.toLowerCase()` and SQL `LOWER(...)`,
  and the proof that lower-cased strings are equal exactly when they differ only in letter case.
- `StudentEntity` — the `Student` datatype, the validity predicate and the violations it
  reports, and the class `StudentTable`: the table as a map from id to record, the ids in
  insertion order, and the next id to assign. Its invariant `Valid()` says every stored record
  sits under its own id, satisfies the field constraints, and appears once in the order.
  Panache's `findById`, `listAll`, `persist` and `deleteById`, and the static helpers of `Student`,
  are its functions and methods. A ghost set `issued` records every id
  ever assigned, so contracts can say that a new id was never used before.
- `Resource` — the class `StudentResource`, one method per handler, each returning a
  `Response` (status code and body). Each handler first applies the parameter constraints
  (`@Min(1)`, `@NotBlank`, `@Valid`): a violation answers 400 with the set of violations before
  the handler body runs, as the framework does.
- `Scenarios` — request sequences proved from the handlers' contracts alone: create then
  fetch, update then fetch, delete then fetch, case-insensitive search, random pick from a
  one-record table.

The model follows the code: the routes live under `/api/students`, and `DELETE /{id}` never answers 204
(see Findings). The search handler lower-cases both sides in SQL, while the static helper
lower-cases the query in Java and the column in SQL; with ASCII folding these agree, and
both are modelled by `StudentTable.FindStudentByName`.

## Model

| member | source | states |
|---|---|---|
| `CaseFolding.Lower` | src/main/java/edu/franklin/Student.java:41 | the folded string has the same length and each character is the ASCII lower-case of the original's |
| `CaseFolding.LowerCharAgrees` | src/main/java/edu/franklin/Student.java:41 | two characters fold to the same character exactly when they are the same letter up to case |
| `CaseFolding.LowerEqualIff` | src/main/java/edu/franklin/Student.java:40-42 | two names compare equal after lower-casing if and only if they differ only in letter case |
| `CaseFolding.AdaExample` | src/main/java/edu/franklin/Student.java:41 | "Ada", "ada" and "ADA" all fold to "ada" |
| `StudentEntity.Violations` | src/main/java/edu/franklin/Student.java:19-29 | the reported violations are empty exactly when the record is valid; each constraint is reported exactly when its field breaks it (blank name, blank phone, grade below 1, grade above 12) |
| `StudentEntity.MessagesIdentifyViolation` | src/main/java/edu/franklin/Student.java:19-26 | the four constraint messages are pairwise distinct, so a message names exactly one broken constraint |
| `StudentEntity.GradeBoundaries` | src/main/java/edu/franklin/Student.java:25-27 | for a record with non-blank name and phone, grades 0 and 13 are invalid and 1 and 12 valid |
| `StudentEntity.LicenseUnconstrained` | src/main/java/edu/franklin/Student.java:29 | the license carries no constraint: changing it never changes whether a record is valid |
| `StudentEntity.BlankIgnoresCase` | src/main/java/edu/franklin/StudentResource.java:58 | a search name and any case variant of it are blank together, so `@NotBlank` treats them alike |
| `StudentEntity.Overwrite` | src/main/java/edu/franklin/Student.java:66-69 | the updated record keeps the existing id and takes every other field from the submitted values; valid values give a valid record |
| `StudentEntity.Without` | src/main/java/edu/franklin/StudentResource.java:125 | removing an id from the insertion order keeps exactly the other ids, keeps them distinct, and shortens the order by one when the id was there |
| `StudentEntity.InOrder` | src/main/java/edu/franklin/Student.java:44-46 | the listed records are those of the given ids, one per id, in the same order |
| `StudentEntity.FirstMatch` | src/main/java/edu/franklin/Student.java:40-42 | the index found is the first whose lower-cased name equals the query; none is found exactly when no name matches |
| `StudentEntity.InsertConsistent` | src/main/java/edu/franklin/StudentResource.java:109 | storing a valid record under the next id keeps every table invariant, and that id was not stored before |
| `StudentEntity.RemoveConsistent` | src/main/java/edu/franklin/StudentResource.java:125 | removing an id, whether stored or not, keeps every table invariant |
| `StudentEntity.ReplaceConsistent` | src/main/java/edu/franklin/Student.java:66-69 | replacing a stored record by a valid record with the same id keeps every table invariant |
| `StudentEntity.StudentTable.FindStudentById` | src/main/java/edu/franklin/Student.java:36-38 | a record is found exactly when the id is stored; it is the stored record, carries that id and is valid |
| `StudentEntity.StudentTable.FindAllStudents` | src/main/java/edu/franklin/Student.java:44-46 | the list has one entry per stored record, contains every stored record, and holds nothing that is not stored |
| `StudentEntity.StudentTable.FindStudentByName` | src/main/java/edu/franklin/Student.java:40-42 | the result is a stored record whose lower-cased name equals the lower-cased query and no earlier record in insertion order matches; not found exactly when no stored name matches |
| `StudentEntity.StudentTable.FindRandomStudent` | src/main/java/edu/franklin/Student.java:48-50 | not found exactly when the table is empty; otherwise some stored record; the table is unchanged |
| `StudentEntity.StudentTable.Persist` | src/main/java/edu/franklin/StudentResource.java:109 | the record gets an id never assigned before (not even to a deleted record), keeps all its other fields, and the table grows by exactly that entry |
| `StudentEntity.StudentTable.PersistStudent` | src/main/java/edu/franklin/Student.java:31-34 | returns the same record with an id never assigned before and the table grows by exactly that entry; a record that already has an id is refused and nothing changes |
| `StudentEntity.StudentTable.DeleteById` | src/main/java/edu/franklin/StudentResource.java:125 | reports true exactly when the id was stored; afterwards that id is gone from the records and the insertion order, and nothing else changed |
| `StudentEntity.StudentTable.DeleteStudent` | src/main/java/edu/franklin/Student.java:52-54 | afterwards the id is not found, every other record is still present and unchanged, the insertion order loses only that id, and the id sequence is untouched |
| `StudentEntity.StudentTable.UpdateStudent` | src/main/java/edu/franklin/Student.java:56-71 | no argument, no id, or an unknown id returns nothing and changes nothing; otherwise exactly name, phone, grade and license are copied, the id is kept, no other record changes, and the updated record is returned |
| `StudentEntity.StudentTable.Update` | src/main/java/edu/franklin/StudentResource.java:154-157 | the stored record takes the four submitted fields and keeps its id; no other record changes |
| `Resource.IdViolations` | src/main/java/edu/franklin/StudentResource.java:41 | an id parameter is rejected exactly when it is below 1 |
| `Resource.Found` | src/main/java/edu/franklin/StudentResource.java:43-46 | a lookup answers 404 with no body exactly when nothing was found, otherwise 200 with the record found |
| `Resource.StudentResource.GetStudentById` | src/main/java/edu/franklin/StudentResource.java:41-47 | 404 exactly when no record has the id, otherwise 200 with that record; 400 for an id below 1; nothing changes |
| `Resource.StudentResource.GetStudentByName` | src/main/java/edu/franklin/StudentResource.java:58-65 | 400 for a blank name; 404 exactly when no stored name matches ignoring case; otherwise 200 with the first matching stored record; nothing changes |
| `Resource.StudentResource.GetAllStudents` | src/main/java/edu/franklin/StudentResource.java:72-74 | always 200, with one entry per stored record (the empty list for an empty table), every stored record and nothing else; nothing changes |
| `Resource.StudentResource.GetRandomStudent` | src/main/java/edu/franklin/StudentResource.java:85-92 | 404 exactly when the table is empty, otherwise 200 with some stored record; nothing changes |
| `Resource.StudentResource.CreateStudent` | src/main/java/edu/franklin/StudentResource.java:102-113 | an invalid body or a body with an id answers 400 and stores nothing; otherwise 201 with the submitted fields under an id never assigned before, and the table grows by exactly that entry |
| `Resource.StudentResource.DeleteStudent` | src/main/java/edu/franklin/StudentResource.java:124-130 | the record with the id is removed if present, the insertion order loses only that id, the id sequence is untouched, and nothing else changes; every valid request answers 404 |
| `Resource.StudentResource.DeleteStudentIntended` | src/main/java/edu/franklin/StudentResource.java:120-123 | as the handler's declared responses say: 204 exactly when a record was removed, 404 otherwise; the table changes as for `DeleteStudent` |
| `Resource.StudentResource.UpdateStudent` | src/main/java/edu/franklin/StudentResource.java:142-160 | 400 for invalid parameters or a body id other than the path id, 404 for an unknown id, nothing changing in those cases; otherwise exactly the four fields are overwritten, the id, all other records, the insertion order and the id sequence stay, and 200 with the updated record |
| `Scenarios.CreateThenGet` | src/main/java/edu/franklin/StudentResource.java:41-47 | after a create, fetching the returned id answers 200 with the identical record |
| `Scenarios.NeverIssuedNotFound` | src/main/java/edu/franklin/StudentResource.java:41-45 | fetching an id the table never assigned answers 404 |
| `Scenarios.DeleteThenCreate` | src/main/java/edu/franklin/StudentResource.java:109 | a record created after a delete gets an id other than the deleted one |
| `Scenarios.UpdateThenGet` | src/main/java/edu/franklin/StudentResource.java:148-159 | after an update, fetching the id answers exactly the submitted name, phone, grade and license under the path id |
| `Scenarios.DeleteThenGetIntended` | src/main/java/edu/franklin/StudentResource.java:124-130 | with the corrected handler: delete answers 204, the record is then not found, and a second delete answers 404 |
| `Scenarios.DeleteAsWrittenReportsNotFound` | src/main/java/edu/franklin/StudentResource.java:126-129 | a stored record is fetched with 200 and gone afterwards, yet the delete answered 404, not 204 |
| `Scenarios.SearchIgnoresCase` | src/main/java/edu/franklin/StudentResource.java:58-65 | two searches whose names differ only in letter case get the same response |
| `Scenarios.RandomOfOne` | src/main/java/edu/franklin/StudentResource.java:85-92 | with exactly one stored record, the random pick answers 200 with that record |

## Findings

| source | as written | input that shows it | evidently intended | confidence | as-written member | corrected member |
|---|---|---|---|---|---|---|
| src/main/java/edu/franklin/StudentResource.java:126-129 | after a successful `deleteById` a 204 response is built and discarded, and the method falls through to return 404 | `DELETE /api/students/{id}` for an id just returned by a create: the record is removed and the answer is 404 | return the 204 response when a record was removed, as the declared `@APIResponse` 204 says | high; not executed | `Resource.StudentResource.DeleteStudent` (counterexample: `Scenarios.DeleteAsWrittenReportsNotFound`) | `Resource.StudentResource.DeleteStudentIntended` (with `Scenarios.DeleteThenGetIntended`) |

## Left out

- HTTP plumbing: the `self` links, the `Location` header built from the base URI on create, media types, and JSON reading and writing. Responses carry a status code and a body only.
- Bean Validation itself: each handler checks the same constraints as its first step, and the exact text and format of the framework's 400 report are not modelled (it is a set of violation kinds).
- `persistStudent` and `updateStudent` in `Student.java` take `@Valid` as a precondition; the validation that JPA would run at flush time is not modelled.
- Transactions: every handler is one atomic step; concurrent requests are not modelled.
- Hibernate internals: SQL, id generation (modelled as a counter; a ghost set of every id ever assigned shows that no id is handed out twice), and managed-entity aliasing. A loaded record is a value in the map, so an in-place field update is a map update; the Java code returns the very object that is stored.
- `StudentTable.FindStudentByName`: `firstResult()` without an `ORDER BY` returns a database-chosen match; the model picks the first match in insertion order, which is one of the choices the database may make.
- `StudentTable.FindRandomStudent`: `order by random()` is modelled as an unspecified choice among stored records, not as a uniform distribution.
- Case folding follows ASCII only; the locale- and Unicode-dependent rules of Java and SQL are not modelled.
- `null` strings: a `null` name or phone is modelled as the empty string (both are blank), and a `null` search name or request body, which would fail with a null-pointer error, is not modelled.
- `StudentTable.PersistStudent`: storing a record that already carries an id makes Hibernate raise an exception; the model returns `None` and leaves the table unchanged instead of modelling the exception.
- Integer widths: ids (`Long`) and grades (`int`) are unbounded integers; overflow of the id sequence is not modelled.
