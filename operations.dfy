/**
 * database/operations.go: the student (session) table and the user-student
 * binding table, with `SaveStudentOrUpdate`, `BindUserAndStudent` and
 * `GetStudentByStuID`.
 */
module Operations {
  import opened Wrappers
  import opened Models

  /** Index of the student record with `stuId`, if any. */
  function FindStudent(rows: seq<Student>, stuId: string): (r: Option<nat>)
    ensures r.Some? ==> r.value < |rows| && rows[r.value].stuId == stuId
    ensures r.None? <==> forall i :: 0 <= i < |rows| ==> rows[i].stuId != stuId
    decreases |rows|
  {
    if |rows| == 0 then None
    else if rows[0].stuId == stuId then Some(0)
    else match FindStudent(rows[1..], stuId)
      case None => None
      case Some(i) => Some(i + 1)
  }

  /** Does user `userId` already have a binding to `stuId`? */
  predicate HasBinding(rows: seq<UserStudent>, userId: int, stuId: string) {
    exists i :: 0 <= i < |rows| && rows[i].userId == userId && rows[i].stuId == stuId
  }

  /** No (UserID, StuID) pair is bound twice; the schema leaves this to `BindUserAndStudent`. */
  predicate UniquePairs(rows: seq<UserStudent>) {
    forall i, j :: 0 <= i < j < |rows| ==> !(rows[i].userId == rows[j].userId && rows[i].stuId == rows[j].stuId)
  }

  /** The bindings of `userId`, in table order (`Where("user_id = ?").Find`). */
  function BindingsOf(rows: seq<UserStudent>, userId: int): (r: seq<UserStudent>)
    ensures |r| <= |rows|
    ensures forall i :: 0 <= i < |r| ==> r[i].userId == userId && r[i] in rows
    ensures forall i :: 0 <= i < |rows| && rows[i].userId == userId ==> rows[i] in r
    decreases |rows|
  {
    if |rows| == 0 then []
    else (if rows[0].userId == userId then [rows[0]] else []) + BindingsOf(rows[1..], userId)
  }

  /** `Find` returns each matching row as often as the table holds it, and nothing else. */
  lemma {:induction false} BindingsOfCounts(rows: seq<UserStudent>, userId: int)
    ensures forall b :: multiset(BindingsOf(rows, userId))[b] == if b.userId == userId then multiset(rows)[b] else 0
    decreases |rows|
  {
    if |rows| > 0 {
      BindingsOfCounts(rows[1..], userId);
      assert rows == [rows[0]] + rows[1..];
      assert multiset(rows) == multiset([rows[0]]) + multiset(rows[1..]);
    }
  }

  /** The rows that survive deleting every binding of (`userId`, `stuId`). */
  function WithoutPair(rows: seq<UserStudent>, userId: int, stuId: string): (r: seq<UserStudent>)
    ensures |r| <= |rows|
    ensures forall i :: 0 <= i < |r| ==> !(r[i].userId == userId && r[i].stuId == stuId) && r[i] in rows
    ensures forall i :: 0 <= i < |rows| && !(rows[i].userId == userId && rows[i].stuId == stuId) ==> rows[i] in r
    decreases |rows|
  {
    if |rows| == 0 then []
    else
      var rest := WithoutPair(rows[1..], userId, stuId);
      if rows[0].userId == userId && rows[0].stuId == stuId then rest else [rows[0]] + rest
  }

  /** Rows are deleted exactly when the pair is bound. */
  lemma {:induction false} WithoutPairCount(rows: seq<UserStudent>, userId: int, stuId: string)
    ensures |WithoutPair(rows, userId, stuId)| == |rows| <==> !HasBinding(rows, userId, stuId)
    decreases |rows|
  {
    if |rows| > 0 {
      WithoutPairCount(rows[1..], userId, stuId);
      if HasBinding(rows[1..], userId, stuId) {
        var k :| 0 <= k < |rows[1..]| && rows[1..][k].userId == userId && rows[1..][k].stuId == stuId;
        assert rows[k + 1] == rows[1..][k];
      }
      if HasBinding(rows, userId, stuId) && !(rows[0].userId == userId && rows[0].stuId == stuId) {
        var k :| 0 <= k < |rows| && rows[k].userId == userId && rows[k].stuId == stuId;
        assert rows[1..][k - 1] == rows[k];
      }
    }
  }

  /** Deleting rows keeps the row ids distinct. */
  lemma {:induction false} WithoutPairKeepsIds(rows: seq<UserStudent>, userId: int, stuId: string)
    requires UniqueBindingIds(rows)
    ensures UniqueBindingIds(WithoutPair(rows, userId, stuId))
    decreases |rows|
  {
    if |rows| > 0 {
      var rest := WithoutPair(rows[1..], userId, stuId);
      WithoutPairKeepsIds(rows[1..], userId, stuId);
      forall k | 0 <= k < |rest| ensures rest[k].id != rows[0].id {
        var m :| 0 <= m < |rows[1..]| && rows[1..][m] == rest[k];
        assert rows[m + 1] == rest[k];
      }
    }
  }

  /**
   * The student rows after `SaveStudentOrUpdate(s)` at `now`: a new `StuID` is
   * appended as given; an existing row gets the new password, cookies and
   * name and `LastLogin = now`, and keeps its place.
   */
  function Upserted(rows: seq<Student>, s: Student, now: Instant): (r: seq<Student>)
    ensures FindStudent(rows, s.stuId).None? ==> r == rows + [s]
    ensures FindStudent(rows, s.stuId).Some? ==>
      var i := FindStudent(rows, s.stuId).value;
      r == rows[i := rows[i].(password := s.password, cookies := s.cookies, lastLogin := now, name := s.name)]
    ensures UniqueStuIds(rows) ==> UniqueStuIds(r)
    ensures exists i :: 0 <= i < |r| && r[i].stuId == s.stuId && r[i].cookies == s.cookies && r[i].name == s.name
  {
    match FindStudent(rows, s.stuId)
    case None =>
      var r := rows + [s];
      assert r[|rows|] == s;
      r
    case Some(i) =>
      var r := rows[i := rows[i].(password := s.password, cookies := s.cookies, lastLogin := now, name := s.name)];
      assert r[i].stuId == s.stuId;
      r
  }

  /** The binding rows after `BindUserAndStudent`: one new row only for a pair without a binding. */
  function WithBinding(rows: seq<UserStudent>, nextId: nat, userId: int, stuId: string, name: string): (r: seq<UserStudent>)
    ensures HasBinding(r, userId, stuId)
    ensures HasBinding(rows, userId, stuId) ==> r == rows
    ensures !HasBinding(rows, userId, stuId) ==> r == rows + [UserStudent(nextId, userId, stuId, name)]
  {
    if HasBinding(rows, userId, stuId) then rows
    else
      var r := rows + [UserStudent(nextId, userId, stuId, name)];
      assert r[|rows|].userId == userId && r[|rows|].stuId == stuId;
      r
  }

  class StudentTable {
    var rows: seq<Student>

    ghost predicate Valid()
      reads this
    {
      UniqueStuIds(rows)
    }

    constructor ()
      ensures Valid() && rows == []
    {
      rows := [];
    }

    /** `GetStudentByStuID`: the record, or "not found". */
    function GetStudentByStuID(stuId: string): (r: Option<Student>)
      reads this
      ensures r.Some? <==> exists i :: 0 <= i < |rows| && rows[i].stuId == stuId
      ensures r.Some? ==> r.value in rows && r.value.stuId == stuId
    {
      match FindStudent(rows, stuId)
      case None => None
      case Some(i) => Some(rows[i])
    }

    /**
     * `SaveStudentOrUpdate`. A new `StuID` inserts the record as given; an
     * existing one gets the new password, cookies and name and `LastLogin = now`
     * (the passed `LastLogin` is ignored). A failed lookup is returned unwritten.
     */
    method SaveStudentOrUpdate(s: Student, now: Instant, lookup: DbRead) returns (r: Result<(), string>)
      requires Valid()
      modifies this
      ensures Valid()
      ensures lookup.ReadFailed? ==> r == Err(lookup.error) && rows == old(rows)
      ensures lookup.ReadOk? ==> r == Ok(()) && rows == Upserted(old(rows), s, now)
    {
      if lookup.ReadFailed? {
        return Err(lookup.error);
      }
      var found := FindStudent(rows, s.stuId);
      if found.None? {
        rows := rows + [s];
      } else {
        var existing := rows[found.value];
        existing := existing.(password := s.password, cookies := s.cookies, lastLogin := now, name := s.name);
        rows := rows[found.value := existing];
      }
      r := Ok(());
    }

    /** gorm's `Save` of a record read from this table: overwrite the row with its `StuID`. */
    method SaveRow(s: Student)
      requires Valid()
      requires exists i :: 0 <= i < |rows| && rows[i].stuId == s.stuId
      modifies this
      ensures Valid() && |rows| == |old(rows)|
      ensures forall i :: 0 <= i < |rows| ==> rows[i] == if old(rows)[i].stuId == s.stuId then s else old(rows)[i]
    {
      var found := FindStudent(rows, s.stuId);
      if found.Some? {
        rows := rows[found.value := s];
      }
    }
  }

  class BindingTable {
    var rows: seq<UserStudent>
    var nextId: nat

    ghost predicate Valid()
      reads this
    {
      UniqueBindingIds(rows) && forall i :: 0 <= i < |rows| ==> rows[i].id < nextId
    }

    constructor ()
      ensures Valid() && rows == [] && nextId == 1
    {
      rows := [];
      nextId := 1;
    }

    /** Number of bindings of `userId` (the count in logic/student/login.go). */
    function CountOf(userId: int): nat
      reads this
    {
      |BindingsOf(rows, userId)|
    }

    /**
     * `BindUserAndStudent`: create (userID, stuID, name) only when that pair has
     * no binding; an existing pair is left as it is, name included.
     */
    method BindUserAndStudent(userId: int, stuId: string, name: string, lookup: DbRead) returns (r: Result<(), string>)
      requires Valid()
      modifies this
      ensures Valid()
      ensures lookup.ReadFailed? ==> r == Err(lookup.error) && rows == old(rows)
      ensures lookup.ReadOk? ==> r == Ok(()) && rows == WithBinding(old(rows), old(nextId), userId, stuId, name)
      ensures UniquePairs(old(rows)) ==> UniquePairs(rows)
    {
      if lookup.ReadFailed? {
        return Err(lookup.error);
      }
      var i := 0;
      while i < |rows|
        invariant 0 <= i <= |rows|
        invariant forall j :: 0 <= j < i ==> !(rows[j].userId == userId && rows[j].stuId == stuId)
      {
        if rows[i].userId == userId && rows[i].stuId == stuId {
          return Ok(());
        }
        i := i + 1;
      }
      rows := rows + [UserStudent(nextId, userId, stuId, name)];
      nextId := nextId + 1;
      assert rows[|rows| - 1].userId == userId && rows[|rows| - 1].stuId == stuId;
      r := Ok(());
    }

    /** Delete every binding of the pair; the result is the number of rows deleted. */
    method DeletePair(userId: int, stuId: string) returns (deleted: nat)
      requires Valid()
      modifies this
      ensures Valid() && nextId == old(nextId)
      ensures rows == WithoutPair(old(rows), userId, stuId)
      ensures deleted == |old(rows)| - |rows|
      ensures deleted == 0 <==> !HasBinding(old(rows), userId, stuId)
    {
      var kept := WithoutPair(rows, userId, stuId);
      WithoutPairCount(rows, userId, stuId);
      WithoutPairKeepsIds(rows, userId, stuId);
      deleted := |rows| - |kept|;
      rows := kept;
    }
  }
}
