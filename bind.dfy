/** logic/user/bind.go: unbinding a student from a user, and listing a user's bindings. */
module Binding {
  import opened Wrappers
  import opened Models
  import opened Tasks
  import opened Operations

  const TasksRemainError: string := "该学号还有任务未删除，请先删除任务再解绑"
  const NoBindingError: string := "绑定关系不存在"

  /**
   * `UnbindStudent`. Refused while any task of (userId, stuId) exists; otherwise
   * every binding row of the pair is deleted, and deleting none is an error.
   * `countRead` is the outcome of the task count query. Tasks and student
   * records are never touched: only `bindings` is in the frame.
   */
  method UnbindStudent(tasks: TaskTable, bindings: BindingTable, userId: int, stuId: string, countRead: DbRead)
    returns (r: Result<(), string>)
    requires bindings.Valid()
    modifies bindings
    ensures bindings.Valid()
    ensures countRead.ReadFailed? ==> r == Err(countRead.error) && bindings.rows == old(bindings.rows)
    ensures countRead.ReadOk? && CountFor(tasks.rows, userId, stuId) > 0 ==>
      r == Err(TasksRemainError) && bindings.rows == old(bindings.rows)
    ensures countRead.ReadOk? && CountFor(tasks.rows, userId, stuId) == 0 ==>
      bindings.rows == WithoutPair(old(bindings.rows), userId, stuId)
      && (r == Ok(()) <==> HasBinding(old(bindings.rows), userId, stuId))
      && (r.Err? ==> r.error == NoBindingError)
    ensures r.Ok? ==> !HasBinding(bindings.rows, userId, stuId)
  {
    if countRead.ReadFailed? {
      return Err(countRead.error);
    }
    var taskCount := CountFor(tasks.rows, userId, stuId);
    if taskCount > 0 {
      return Err(TasksRemainError);
    }
    var deleted := bindings.DeletePair(userId, stuId);
    if deleted == 0 {
      return Err(NoBindingError);
    }
    r := Ok(());
  }

  /** `GetBoundStudents`: exactly the bindings whose `UserID` is `userId`, or the query's error. */
  function GetBoundStudents(bindings: seq<UserStudent>, userId: int, read: DbRead): (r: Result<seq<UserStudent>, string>)
    ensures read.ReadFailed? ==> r == Err(read.error)
    ensures read.ReadOk? ==> r.Ok?
    ensures r.Ok? ==> forall b :: b in r.value <==> b in bindings && b.userId == userId
    ensures r.Ok? ==> forall b :: multiset(r.value)[b] == if b.userId == userId then multiset(bindings)[b] else 0
  {
    if read.ReadFailed? then Err(read.error)
    else
      var found := BindingsOf(bindings, userId);
      BindingsOfCounts(bindings, userId);
      assert forall b :: b in found <==> b in bindings && b.userId == userId by {
        forall b | b in bindings && b.userId == userId ensures b in found {
          var i :| 0 <= i < |bindings| && bindings[i] == b;
        }
        forall b | b in found ensures b in bindings && b.userId == userId {
          var i :| 0 <= i < |found| && found[i] == b;
        }
      }
      Ok(found)
  }
}
