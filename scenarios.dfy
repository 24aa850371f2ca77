/**
 * Request sequences against one resource, proved from the handlers' contracts alone: the
 * round trips a client of `/api/students` relies on.
 */
module Scenarios {
  import opened Wrappers
  import opened CaseFolding
  import opened StudentEntity
  import opened Resource

  /** Create, then fetch by the returned id: 200 with the identical record. */
  method CreateThenGet(api: StudentResource, student: Student) returns (created: Response, fetched: Response)
    requires api.table.Valid() && IsValid(student) && student.id.None?
    modifies api.table
    ensures api.table.Valid()
    ensures created.status == CREATED && created.body.One? && created.body.student.id.Some?
    ensures created.body.student.(id := None) == student
    ensures fetched == Response(OK, created.body)
  {
    created := api.CreateStudent(student);
    fetched := api.GetStudentById(created.body.student.id.value);
  }

  /** An id the table never assigned is not found. */
  method NeverIssuedNotFound(api: StudentResource, id: int) returns (r: Response)
    requires api.table.Valid() && 1 <= id && id !in api.table.issued
    ensures r == Response(NOT_FOUND, NoBody)
  {
    r := api.GetStudentById(id);
  }

  /** A deleted id is never handed out again: a create after a delete stores the record under a different id. */
  method DeleteThenCreate(api: StudentResource, id: int, student: Student) returns (deleted: Response, created: Response)
    requires api.table.Valid() && 1 <= id && id in api.table.rows && IsValid(student) && student.id.None?
    modifies api.table
    ensures api.table.Valid()
    ensures created.status == CREATED && created.body.One? && created.body.student.id.Some?
    ensures created.body.student.id.value != id
  {
    deleted := api.DeleteStudent(id);
    created := api.CreateStudent(student);
  }

  /** Update, then fetch: the record has exactly the submitted name, phone, grade and license, and its id. */
  method UpdateThenGet(api: StudentResource, id: int, student: Student) returns (updated: Response, fetched: Response)
    requires api.table.Valid() && IsValid(student) && 1 <= id && id in api.table.rows
    requires student.id.None? || student.id == Some(id)
    modifies api.table
    ensures api.table.Valid()
    ensures updated.status == OK && fetched == updated
    ensures fetched.body.One? && fetched.body.student == student.(id := Some(id))
  {
    updated := api.UpdateStudent(id, student);
    fetched := api.GetStudentById(id);
  }

  /**
   * Delete, then fetch, then delete again, with the handler as documented: 204, then 404,
   * then 404.
   */
  method DeleteThenGetIntended(api: StudentResource, id: int) returns (first: Response, fetched: Response, second: Response)
    requires api.table.Valid() && 1 <= id && id in api.table.rows
    modifies api.table
    ensures api.table.Valid()
    ensures first.status == NO_CONTENT && fetched.status == NOT_FOUND && second.status == NOT_FOUND
  {
    first := api.DeleteStudentIntended(id);
    fetched := api.GetStudentById(id);
    second := api.DeleteStudentIntended(id);
  }

  /**
   * The handler as written: a stored record is fetched (200), deleted, and is gone afterwards
   * (404), yet the delete itself answered 404 rather than 204.
   */
  method DeleteAsWrittenReportsNotFound(api: StudentResource, id: int) returns (before: Response, deleted: Response, after: Response)
    requires api.table.Valid() && 1 <= id && id in api.table.rows
    modifies api.table
    ensures api.table.Valid()
    ensures before.status == OK && after.status == NOT_FOUND
    ensures deleted.status == NOT_FOUND && deleted.status != NO_CONTENT
  {
    before := api.GetStudentById(id);
    deleted := api.DeleteStudent(id);
    after := api.GetStudentById(id);
  }

  /** Searches that differ only in letter case get the same response. */
  method SearchIgnoresCase(api: StudentResource, a: string, b: string) returns (ra: Response, rb: Response)
    requires api.table.Valid() && EqualIgnoringCase(a, b)
    ensures ra == rb
  {
    LowerEqualIff(a, b);
    BlankIgnoresCase(a, b);
    ra := api.GetStudentByName(a);
    rb := api.GetStudentByName(b);
  }

  /** A map with one entry has one key. */
  lemma SingleKey(m: map<int, Student>, a: int, b: int)
    requires |m| == 1 && a in m && b in m
    ensures a == b
  {
    var rest := m.Keys - {a};
    assert m.Keys == rest + {a};
    assert |rest| == 0;
    assert b !in rest;
  }

  /** With exactly one stored record, the random pick is that record. */
  method RandomOfOne(api: StudentResource) returns (r: Response)
    requires api.table.Valid() && |api.table.rows| == 1
    ensures r.status == OK && r.body.One?
    ensures forall k :: k in api.table.rows ==> api.table.rows[k] == r.body.student
  {
    r := api.GetRandomStudent();
    var rows := api.table.rows;
    forall k | k in rows ensures rows[k] == r.body.student {
      SingleKey(rows, k, r.body.student.id.value);
    }
  }
}
