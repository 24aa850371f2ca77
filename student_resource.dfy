/**
 * The HTTP handlers of `/api/students`. Each handler first applies the Bean Validation
 * constraints on its parameters (a violation answers 400 before the body runs), then does
 * what the handler body does against the `Student` table and answers with a status code and
 * an optional body.
 */
module Resource {
  import opened Wrappers
  import opened CaseFolding
  import opened StudentEntity

  const OK := 200
  const CREATED := 201
  const NO_CONTENT := 204
  const BAD_REQUEST := 400
  const NOT_FOUND := 404

  const ID_ON_CREATE := "Don't include an id when creating a student."
  const ID_MISMATCH := "Path id and body id must match."

  /** The constraints on path parameters: `@Min(1)` on an id, `@NotBlank` on a search name. */
  datatype ParamViolation = IdBelowOne | NameQueryBlank

  datatype Body =
    | NoBody
    | One(student: Student)
    | Many(students: seq<Student>)
    | Text(text: string)
    | Rejected(fields: set<Violation>, params: set<ParamViolation>)

  datatype Response = Response(status: int, body: Body)

  function IdViolations(id: int): (r: set<ParamViolation>)
    ensures r == {} <==> 1 <= id
  {
    if id < 1 then {IdBelowOne} else {}
  }

  /** The answer of a lookup handler: 200 with the record found, 404 with no body when nothing was found. */
  function Found(found: Option<Student>): (r: Response)
    ensures r.status == NOT_FOUND <==> found.None?
    ensures found.None? ==> r.body == NoBody
    ensures found.Some? ==> r.status == OK && r.body == One(found.value)
  {
    match found
    case None => Response(NOT_FOUND, NoBody)
    case Some(s) => Response(OK, One(s))
  }

  class StudentResource {
    const table: StudentTable

    constructor (table: StudentTable)
      ensures this.table == table
    {
      this.table := table;
    }

    /** GET /{id}: 200 with the record when it is stored, 404 when it is not; nothing changes. */
    method GetStudentById(id: int) returns (r: Response)
      requires table.Valid()
      ensures id < 1 ==> r == Response(BAD_REQUEST, Rejected({}, {IdBelowOne}))
      ensures 1 <= id ==> (r.status == NOT_FOUND <==> id !in table.rows)
      ensures 1 <= id && id !in table.rows ==> r == Response(NOT_FOUND, NoBody)
      ensures 1 <= id && id in table.rows ==> r == Response(OK, One(table.rows[id])) && table.rows[id].id == Some(id)
    {
      if id < 1 {
        return Response(BAD_REQUEST, Rejected({}, IdViolations(id)));
      }
      var student := table.FindStudentById(id);
      if student.None? {
        return Response(NOT_FOUND, NoBody);
      }
      r := Response(OK, One(student.value));
    }

    /**
     * GET /search/{name}: 200 with the first stored record (in insertion order) whose
     * lower-cased name is the lower-cased query, 404 when no record matches; nothing changes.
     */
    method GetStudentByName(name: string) returns (r: Response)
      requires table.Valid()
      ensures Blank(name) ==> r == Response(BAD_REQUEST, Rejected({}, {NameQueryBlank}))
      ensures !Blank(name) ==> r == Found(table.FindStudentByName(name))
      ensures !Blank(name) ==> (r.status == NOT_FOUND <==> forall k :: k in table.rows ==> Lower(table.rows[k].name) != Lower(name))
      ensures r.status == OK ==>
        && r.body.One? && Lower(r.body.student.name) == Lower(name)
        && r.body.student.id.Some? && r.body.student.id.value in table.rows
        && table.rows[r.body.student.id.value] == r.body.student
    {
      if Blank(name) {
        return Response(BAD_REQUEST, Rejected({}, {NameQueryBlank}));
      }
      var student := table.FindStudentByName(name);
      if student.None? {
        return Response(NOT_FOUND, NoBody);
      }
      r := Response(OK, One(student.value));
    }

    /** GET: always 200 with every stored record, the empty list included; nothing changes. */
    method GetAllStudents() returns (r: Response)
      requires table.Valid()
      ensures r.status == OK && r.body.Many?
      ensures |r.body.students| == |table.rows|
      ensures forall k :: k in table.rows ==> table.rows[k] in r.body.students
      ensures forall s :: s in r.body.students ==> s.id.Some? && s.id.value in table.rows && table.rows[s.id.value] == s
    {
      r := Response(OK, Many(table.FindAllStudents()));
    }

    /** GET /random: 404 exactly when the table is empty, otherwise 200 with some stored record; nothing changes. */
    method GetRandomStudent() returns (r: Response)
      requires table.Valid()
      ensures r.status == NOT_FOUND <==> table.rows == map[]
      ensures r.status == NOT_FOUND ==> r.body == NoBody
      ensures r.status != NOT_FOUND ==>
        && r.status == OK && r.body.One?
        && r.body.student.id.Some? && r.body.student.id.value in table.rows
        && table.rows[r.body.student.id.value] == r.body.student
    {
      var student := table.FindRandomStudent();
      if student.None? {
        return Response(NOT_FOUND, NoBody);
      }
      r := Response(OK, One(student.value));
    }

    /**
     * POST: an invalid body is rejected with 400; a body that carries an id is rejected with
     * 400 and the explanatory text; otherwise the record is stored under a fresh id and
     * returned with 201. Only the last case changes the table, by exactly that one entry.
     */
    method CreateStudent(student: Student) returns (r: Response)
      requires table.Valid()
      modifies table
      ensures table.Valid()
      ensures !IsValid(student) ==> r == Response(BAD_REQUEST, Rejected(Violations(student), {})) && unchanged(table)
      ensures IsValid(student) && student.id.Some? ==> r == Response(BAD_REQUEST, Text(ID_ON_CREATE)) && unchanged(table)
      ensures IsValid(student) && student.id.None? ==>
        && r.status == CREATED && r.body.One?
        && r.body.student == student.(id := r.body.student.id)
        && r.body.student.id.Some? && r.body.student.id.value !in old(table.rows)
        && table.rows == old(table.rows)[r.body.student.id.value := r.body.student]
        && table.order == old(table.order) + [r.body.student.id.value]
        && r.body.student.id.value !in old(table.issued)
        && table.issued == old(table.issued) + {r.body.student.id.value}
    {
      if !IsValid(student) {
        return Response(BAD_REQUEST, Rejected(Violations(student), {}));
      }
      if student.id.Some? {
        return Response(BAD_REQUEST, Text(ID_ON_CREATE));
      }
      var stored := table.Persist(student);
      r := Response(CREATED, One(stored));
    }

    /**
     * DELETE /{id}, as written: the record with that id is removed if present and nothing else
     * changes, but the 204 response built after a removal is discarded, so every valid request
     * answers 404.
     */
    method DeleteStudent(id: int) returns (r: Response)
      requires table.Valid()
      modifies table
      ensures table.Valid()
      ensures id < 1 ==> r == Response(BAD_REQUEST, Rejected({}, {IdBelowOne})) && unchanged(table)
      ensures 1 <= id ==> r == Response(NOT_FOUND, NoBody)
      ensures 1 <= id ==> table.rows == old(table.rows) - {id}
      ensures table.order == Without(old(table.order), id)
      ensures table.nextId == old(table.nextId) && table.issued == old(table.issued)
    {
      if id < 1 {
        return Response(BAD_REQUEST, Rejected({}, IdViolations(id)));
      }
      var deleted := table.DeleteById(id);
      if deleted {
        var discarded := Response(NO_CONTENT, NoBody);
      }
      r := Response(NOT_FOUND, NoBody);
    }

    /** DELETE /{id} as documented by its own API annotations: 204 after a removal, 404 when nothing had that id. */
    method DeleteStudentIntended(id: int) returns (r: Response)
      requires table.Valid()
      modifies table
      ensures table.Valid()
      ensures id < 1 ==> r == Response(BAD_REQUEST, Rejected({}, {IdBelowOne})) && unchanged(table)
      ensures 1 <= id ==> r == if id in old(table.rows) then Response(NO_CONTENT, NoBody) else Response(NOT_FOUND, NoBody)
      ensures 1 <= id ==> table.rows == old(table.rows) - {id}
      ensures table.order == Without(old(table.order), id)
      ensures table.nextId == old(table.nextId) && table.issued == old(table.issued)
    {
      if id < 1 {
        return Response(BAD_REQUEST, Rejected({}, IdViolations(id)));
      }
      var deleted := table.DeleteById(id);
      if deleted {
        return Response(NO_CONTENT, NoBody);
      }
      r := Response(NOT_FOUND, NoBody);
    }

    /**
     * PUT /{id}: invalid parameters answer 400 with the violations; a body id other than the
     * path id answers 400 with the explanatory text; an id that is not stored answers 404. In
     * those cases nothing changes. Otherwise the stored record takes the body's name, phone,
     * grade and license, keeps its id, every other record stays as it was, and the updated
     * record is returned with 200.
     */
    method UpdateStudent(id: int, student: Student) returns (r: Response)
      requires table.Valid()
      modifies table
      ensures table.Valid()
      ensures id < 1 || !IsValid(student) ==>
        r == Response(BAD_REQUEST, Rejected(Violations(student), IdViolations(id))) && unchanged(table)
      ensures 1 <= id && IsValid(student) && student.id.Some? && student.id.value != id ==>
        r == Response(BAD_REQUEST, Text(ID_MISMATCH)) && unchanged(table)
      ensures 1 <= id && IsValid(student) && (student.id.None? || student.id.value == id) && id !in old(table.rows) ==>
        r == Response(NOT_FOUND, NoBody) && unchanged(table)
      ensures 1 <= id && IsValid(student) && (student.id.None? || student.id.value == id) && id in old(table.rows) ==>
        && r == Response(OK, One(Overwrite(old(table.rows)[id], student)))
        && r.body.student.id == Some(id)
        && table.rows == old(table.rows)[id := r.body.student]
        && table.order == old(table.order)
        && table.nextId == old(table.nextId) && table.issued == old(table.issued)
    {
      if id < 1 || !IsValid(student) {
        return Response(BAD_REQUEST, Rejected(Violations(student), IdViolations(id)));
      }
      if student.id.Some? && student.id.value != id {
        return Response(BAD_REQUEST, Text(ID_MISMATCH));
      }
      var existing := table.FindStudentById(id);
      if existing.None? {
        return Response(NOT_FOUND, NoBody);
      }
      var updated := table.Update(id, student);
      r := Response(OK, One(updated));
    }
  }
}
