/**
 * The `Student` entity and its table: the record shape, the Bean Validation constraints on
 * its fields, and the data-access operations (Panache's `findById`, `listAll`, `persist`,
 * `deleteById`, and the static helpers of `Student`) over a table keyed by id.
 */
module StudentEntity {
  import opened Wrappers
  import opened CaseFolding

  /**
   * One record. `id` is `None` until the table assigns one; a `null` name or phone is
   * represented by the empty string, which the constraints reject exactly as they reject `null`.
   */
  datatype Student = Student(id: Option<int>, name: string, phone: string, grade: int, license: Option<string>)

  /** The four field constraints of the entity, one per annotation. */
  datatype Violation = NameBlank | PhoneBlank | GradeBelowMin | GradeAboveMax

  /** The message each constraint annotation carries. */
  function Message(v: Violation): string
  {
    match v
    case NameBlank => "name cannot be empty"
    case PhoneBlank => "phone cannot be empty"
    case GradeBelowMin => "grade must be >= 1"
    case GradeAboveMax => "grade must be <= 12"
  }

  /** Each constraint has its own message, so a rejection names the constraint that was broken. */
  lemma MessagesIdentifyViolation(v: Violation, w: Violation)
    ensures Message(v) == Message(w) <==> v == w
  {
  }

  const MIN_GRADE := 1
  const MAX_GRADE := 12

  /** `@NotBlank`: nothing is left once the characters at or below U+0020 are trimmed. */
  predicate Blank(s: string)
  {
    forall i :: 0 <= i < |s| ==> s[i] <= ' '
  }

  /** A record satisfies every field constraint; `license` and `id` are unconstrained. */
  predicate IsValid(s: Student)
  {
    !Blank(s.name) && !Blank(s.phone) && MIN_GRADE <= s.grade <= MAX_GRADE
  }

  /** The constraints a record violates, as the validator reports them. */
  function Violations(s: Student): (r: set<Violation>)
    ensures r == {} <==> IsValid(s)
    ensures NameBlank in r <==> Blank(s.name)
    ensures PhoneBlank in r <==> Blank(s.phone)
    ensures GradeBelowMin in r <==> s.grade < MIN_GRADE
    ensures GradeAboveMax in r <==> s.grade > MAX_GRADE
  {
    (if Blank(s.name) then {NameBlank} else {})
    + (if Blank(s.phone) then {PhoneBlank} else {})
    + (if s.grade < MIN_GRADE then {GradeBelowMin} else {})
    + (if s.grade > MAX_GRADE then {GradeAboveMax} else {})
  }

  /** The grade boundaries: 0 and 13 are rejected, 1 and 12 accepted. */
  lemma GradeBoundaries(s: Student)
    requires !Blank(s.name) && !Blank(s.phone)
    ensures !IsValid(s.(grade := 0)) && !IsValid(s.(grade := 13))
    ensures IsValid(s.(grade := 1)) && IsValid(s.(grade := 12))
  {
  }

  /** The license carries no constraint: changing it never changes validity. */
  lemma LicenseUnconstrained(s: Student, license: Option<string>)
    ensures IsValid(s.(license := license)) == IsValid(s)
  {
  }

  /** Blankness does not depend on letter case, so a query and its case variants pass or fail `@NotBlank` together. */
  lemma BlankIgnoresCase(a: string, b: string)
    requires EqualIgnoringCase(a, b)
    ensures Blank(a) <==> Blank(b)
  {
    if Blank(a) {
      forall i | 0 <= i < |b| ensures b[i] <= ' ' { assert SameIgnoringCase(a[i], b[i]); }
    }
    if Blank(b) {
      forall i | 0 <= i < |a| ensures a[i] <= ' ' { assert SameIgnoringCase(a[i], b[i]); }
    }
  }

  /**
   * The four assignments of an update: name, phone, grade and license come from `values`,
   * the id stays that of `existing`.
   */
  function Overwrite(existing: Student, values: Student): (r: Student)
    ensures r.id == existing.id
    ensures r.(id := values.id) == values
    ensures IsValid(values) ==> IsValid(r)
  {
    existing.(name := values.name, phone := values.phone, grade := values.grade, license := values.license)
  }

  predicate Distinct(s: seq<int>)
  {
    forall i, j :: 0 <= i < j < |s| ==> s[i] != s[j]
  }

  /** `s` with `x` removed, the others kept in order. */
  function Without(s: seq<int>, x: int): (r: seq<int>)
    ensures forall y :: y in r <==> y in s && y != x
    ensures Distinct(s) ==> Distinct(r)
    ensures Distinct(s) && x in s ==> |r| == |s| - 1
    ensures x !in s ==> r == s
  {
    if s == [] then []
    else if s[0] == x then Without(s[1..], x)
    else
      var rest := Without(s[1..], x);
      assert Distinct(s) ==> s[0] !in s[1..];
      [s[0]] + rest
  }

  /** The records of `ids`, in that order. */
  function InOrder(ids: seq<int>, rows: map<int, Student>): (r: seq<Student>)
    requires forall i :: 0 <= i < |ids| ==> ids[i] in rows
    ensures |r| == |ids|
    ensures forall i :: 0 <= i < |ids| ==> r[i] == rows[ids[i]]
  {
    if ids == [] then [] else [rows[ids[0]]] + InOrder(ids[1..], rows)
  }

  /** The position of the first record of `ids` whose lower-cased name is `lowered`. */
  function FirstMatch(ids: seq<int>, rows: map<int, Student>, lowered: string): (r: Option<nat>)
    requires forall i :: 0 <= i < |ids| ==> ids[i] in rows
    ensures r.Some? ==> r.value < |ids| && Lower(rows[ids[r.value]].name) == lowered
    ensures r.Some? ==> forall j :: 0 <= j < r.value ==> Lower(rows[ids[j]].name) != lowered
    ensures r.None? ==> forall j :: 0 <= j < |ids| ==> Lower(rows[ids[j]].name) != lowered
  {
    if ids == [] then None
    else if Lower(rows[ids[0]].name) == lowered then Some(0)
    else match FirstMatch(ids[1..], rows, lowered)
      case None => None
      case Some(k) => Some(k + 1)
  }

  /**
   * The table invariant: every stored record sits under its own id, below the next id to
   * assign, and satisfies the field constraints; the order lists each stored id exactly once.
   */
  ghost predicate Consistent(rows: map<int, Student>, order: seq<int>, nextId: int)
  {
    && 1 <= nextId
    && Distinct(order)
    && |order| == |rows|
    && (forall i :: 0 <= i < |order| ==> order[i] in rows)
    && (forall k :: k in rows ==> k in order)
    && (forall k :: k in rows ==> 1 <= k < nextId && rows[k].id == Some(k) && IsValid(rows[k]))
  }

  /** Storing a valid record under the next id keeps the invariant; that id was not stored before. */
  lemma InsertConsistent(rows: map<int, Student>, order: seq<int>, nextId: int, s: Student)
    requires Consistent(rows, order, nextId) && IsValid(s) && s.id == Some(nextId)
    ensures nextId !in rows && nextId !in order
    ensures Consistent(rows[nextId := s], order + [nextId], nextId + 1)
  {
    assert forall i :: 0 <= i < |order| ==> order[i] < nextId;
  }

  /** Removing an id, stored or not, keeps the invariant. */
  lemma RemoveConsistent(rows: map<int, Student>, order: seq<int>, nextId: int, id: int)
    requires Consistent(rows, order, nextId)
    ensures Consistent(rows - {id}, Without(order, id), nextId)
  {
    var rows', order' := rows - {id}, Without(order, id);
    assert forall i :: 0 <= i < |order'| ==> order'[i] in order && order'[i] != id;
    if id in rows {
      assert rows.Keys == rows'.Keys + {id};
      assert |rows'.Keys| == |rows.Keys| - 1;
      assert |rows'| == |rows| - 1;
      assert id in order;
      assert |order'| == |order| - 1;
    } else {
      assert id !in order;
      assert order' == order;
      assert rows == rows';
    }
  }

  /** Replacing a stored record by a valid one with the same id keeps the invariant. */
  lemma ReplaceConsistent(rows: map<int, Student>, order: seq<int>, nextId: int, id: int, s: Student)
    requires Consistent(rows, order, nextId) && id in rows && IsValid(s) && s.id == Some(id)
    ensures Consistent(rows[id := s], order, nextId)
  {
    assert rows[id := s].Keys == rows.Keys;
  }

  /**
   * The `Student` table. `rows` maps each assigned id to its record, `order` lists the ids in
   * insertion order (the order `listAll` and `firstResult` see), and `nextId` is the id the
   * next insert receives. `issued` records every id ever assigned, deleted ones included:
   * the id sequence never hands one out twice.
   */
  class StudentTable {
    var rows: map<int, Student>
    var order: seq<int>
    var nextId: int
    ghost var issued: set<int>

    ghost predicate Valid()
      reads this
    {
      && Consistent(rows, order, nextId)
      && rows.Keys <= issued
      && (forall k :: k in issued ==> k < nextId)
    }

    constructor ()
      ensures Valid() && rows == map[] && order == [] && issued == {}
    {
      rows, order, nextId := map[], [], 1;
      issued := {};
    }

    /** `findStudentById` and Panache's `findById`: the record with that id, or not found. */
    function FindStudentById(id: int): (r: Option<Student>)
      reads this
      requires Valid()
      ensures r.Some? <==> id in rows
      ensures r.Some? ==> r.value == rows[id] && r.value.id == Some(id) && IsValid(r.value)
    {
      if id in rows then Some(rows[id]) else None
    }

    /** `findAllStudents` and Panache's `listAll`: every stored record once, in insertion order. */
    function FindAllStudents(): (r: seq<Student>)
      reads this
      requires Valid()
      ensures |r| == |rows|
      ensures forall k :: k in rows ==> rows[k] in r
      ensures forall i :: 0 <= i < |r| ==> r[i].id.Some? && r[i].id.value in rows && rows[r[i].id.value] == r[i]
    {
      var r := InOrder(order, rows);
      assert forall k :: k in rows ==> rows[k] in r by {
        forall k | k in rows ensures rows[k] in r {
          var i :| 0 <= i < |order| && order[i] == k;
          assert r[i] == rows[k];
        }
      }
      r
    }

    /**
     * `findStudentByName`: the first record, in insertion order, whose lower-cased name equals
     * the lower-cased query; not found when there is none.
     */
    function FindStudentByName(name: string): (r: Option<Student>)
      reads this
      requires Valid()
      ensures r.Some? ==> r.value.id.Some? && r.value.id.value in rows && rows[r.value.id.value] == r.value
      ensures r.Some? ==> Lower(r.value.name) == Lower(name)
      ensures r.None? <==> forall k :: k in rows ==> Lower(rows[k].name) != Lower(name)
      ensures r.Some? ==> exists i :: (0 <= i < |order| && rows[order[i]] == r.value
                                       && forall j :: 0 <= j < i ==> Lower(rows[order[j]].name) != Lower(name))
    {
      match FirstMatch(order, rows, Lower(name))
      case None =>
        assert forall k :: k in rows ==> Lower(rows[k].name) != Lower(name) by {
          forall k | k in rows ensures Lower(rows[k].name) != Lower(name) {
            var i :| 0 <= i < |order| && order[i] == k;
          }
        }
        None
      case Some(i) =>
        var id := order[i];
        assert id in rows && rows[id].id == Some(id) && Lower(rows[id].name) == Lower(name);
        Some(rows[id])
    }

    /**
     * `findRandomStudent`: some stored record, chosen by the database's `random()` ordering,
     * which this model leaves as an unspecified choice; not found when the table is empty.
     */
    method FindRandomStudent() returns (r: Option<Student>)
      requires Valid()
      ensures r.None? <==> rows == map[]
      ensures r.Some? ==> r.value.id.Some? && r.value.id.value in rows && rows[r.value.id.value] == r.value
    {
      if order == [] {
        assert |rows| == 0;
        r := None;
      } else {
        var i :| 0 <= i < |order|;
        var id := order[i];
        assert id in rows && rows[id].id == Some(id);
        r := Some(rows[id]);
      }
    }

    /** Panache's `persist` on a new record: it receives a fresh id and is stored under it. */
    method Persist(student: Student) returns (stored: Student)
      requires Valid() && IsValid(student) && student.id.None?
      modifies this
      ensures Valid()
      ensures stored.id.Some? && stored.id.value !in old(rows)
      ensures stored == student.(id := stored.id)
      ensures stored.id.value !in old(issued) && issued == old(issued) + {stored.id.value}
      ensures rows == old(rows)[stored.id.value := stored]
      ensures order == old(order) + [stored.id.value]
    {
      var id := nextId;
      stored := student.(id := Some(id));
      InsertConsistent(rows, order, nextId, stored);
      issued := issued + {id};
      rows := rows[id := stored];
      order := order + [id];
      nextId := nextId + 1;
    }

    /**
     * `persistStudent`: stores the given record with a fresh id and returns it. A record that
     * already carries an id is refused by Hibernate (a detached entity); that failure is `None`
     * and leaves the table as it was.
     */
    method PersistStudent(student: Student) returns (r: Option<Student>)
      requires Valid() && IsValid(student)
      modifies this
      ensures Valid()
      ensures student.id.Some? ==> r.None? && unchanged(this)
      ensures student.id.None? ==> r.Some? && r.value.id.Some? && r.value.id.value !in old(rows)
      ensures student.id.None? ==> r.value.id.value !in old(issued) && issued == old(issued) + {r.value.id.value}
      ensures student.id.None? ==> r.value == student.(id := r.value.id)
      ensures student.id.None? ==> rows == old(rows)[r.value.id.value := r.value]
      ensures student.id.None? ==> order == old(order) + [r.value.id.value]
    {
      if student.id.Some? {
        r := None;
      } else {
        var stored := Persist(student);
        r := Some(stored);
      }
    }

    /** Panache's `deleteById`: removes the record with that id, if any, and says whether it did. */
    method DeleteById(id: int) returns (deleted: bool)
      requires Valid()
      modifies this
      ensures Valid()
      ensures deleted <==> id in old(rows)
      ensures rows == old(rows) - {id}
      ensures order == Without(old(order), id)
      ensures nextId == old(nextId) && issued == old(issued)
    {
      deleted := id in rows;
      RemoveConsistent(rows, order, nextId, id);
      rows := rows - {id};
      order := Without(order, id);
    }

    /** `deleteStudent`: removes the record with that id, if any; afterwards it is not found and every other record is as it was. */
    method DeleteStudent(id: int)
      requires Valid()
      modifies this
      ensures Valid()
      ensures FindStudentById(id).None?
      ensures forall k :: k in old(rows) && k != id ==> k in rows && rows[k] == old(rows)[k]
      ensures rows.Keys == old(rows).Keys - {id}
      ensures order == Without(old(order), id) && nextId == old(nextId) && issued == old(issued)
    {
      var _ := DeleteById(id);
    }

    /**
     * `updateStudent`: with no argument, or an argument without an id, or an id that is not
     * stored, nothing changes and the result is `None`. Otherwise the stored record takes the
     * argument's name, phone, grade and license, keeps its id, and is returned.
     */
    method UpdateStudent(student: Option<Student>) returns (r: Option<Student>)
      requires Valid()
      requires student.Some? ==> IsValid(student.value)
      modifies this
      ensures Valid()
      ensures student.None? || student.value.id.None? ==> r.None? && unchanged(this)
      ensures student.Some? && student.value.id.Some? && student.value.id.value !in old(rows) ==> r.None? && unchanged(this)
      ensures student.Some? && student.value.id.Some? && student.value.id.value in old(rows) ==>
        var id := student.value.id.value;
        && r == Some(Overwrite(old(rows)[id], student.value))
        && r.value.id == Some(id)
        && rows == old(rows)[id := r.value]
        && order == old(order) && nextId == old(nextId) && issued == old(issued)
    {
      if student.None? || student.value.id.None? {
        return None;
      }
      var existing := FindStudentById(student.value.id.value);
      if existing.None? {
        return None;
      }
      var updated := Overwrite(existing.value, student.value);
      ReplaceConsistent(rows, order, nextId, student.value.id.value, updated);
      rows := rows[student.value.id.value := updated];
      r := Some(updated);
    }

    /** The in-place update of a loaded record, as the resource performs it: the four fields of `values` onto record `id`. */
    method Update(id: int, values: Student) returns (updated: Student)
      requires Valid() && IsValid(values) && id in rows
      modifies this
      ensures Valid()
      ensures updated == Overwrite(old(rows)[id], values) && updated.id == Some(id)
      ensures rows == old(rows)[id := updated]
      ensures order == old(order) && nextId == old(nextId) && issued == old(issued)
    {
      updated := Overwrite(rows[id], values);
      ReplaceConsistent(rows, order, nextId, id, updated);
      rows := rows[id := updated];
    }
  }
}
