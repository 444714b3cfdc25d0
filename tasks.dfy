/** The task collection of the task tracker and the pure operations on it:
    identifier allocation, adding a task, editing the first task with a given
    id, deleting by id and listing by status. The collection is an ordered
    sequence of task records, in creation order. */
module TaskModel {

  datatype Option<T> = None | Some(value: T)

  /** A timestamp as the clock renders it (ISO text); the model never looks inside. */
  type Timestamp = string

  datatype Task = Task(id: nat, description: string, status: string, createdAt: Timestamp, updatedAt: Timestamp)

  const Todo: string := "todo"
  const InProgress: string := "in-progress"
  const Done: string := "done"

  predicate HasId(tasks: seq<Task>, id: int) {
    exists i :: 0 <= i < |tasks| && tasks[i].id == id
  }

  predicate UniqueIds(tasks: seq<Task>) {
    forall i, j :: 0 <= i < j < |tasks| ==> tasks[i].id != tasks[j].id
  }

  /** An id is present exactly when the first task or a later one carries it. */
  lemma HasIdSplit(tasks: seq<Task>, id: int)
    requires tasks != []
    ensures HasId(tasks, id) <==> tasks[0].id == id || HasId(tasks[1..], id)
  {}

  /** Tasks numbered 1, 2, ..., n in order, as a run of adds on an empty store leaves them. */
  predicate NumberedFromOne(tasks: seq<Task>) {
    forall k :: 0 <= k < |tasks| ==> tasks[k].id == k + 1
  }

  // ---------------------------------------------------------------------------
  // Identifier allocation

  /** The largest id present, or 0 for an empty collection (`max(..., default=0)`). */
  function MaxId(tasks: seq<Task>): (m: nat)
    ensures forall i :: 0 <= i < |tasks| ==> tasks[i].id <= m
    ensures tasks == [] ==> m == 0
    ensures tasks != [] ==> HasId(tasks, m)
  {
    if tasks == [] then 0
    else
      var rest := MaxId(tasks[1..]);
      if rest <= tasks[0].id then tasks[0].id
      else
        assert HasId(tasks[1..], rest);
        var j :| 0 <= j < |tasks[1..]| && tasks[1..][j].id == rest;
        assert tasks[j + 1].id == rest;
        rest
  }

  /** The id the next add assigns: one more than the largest id present, 1 when
      there is none. It reads only the ids present now. */
  function NextId(tasks: seq<Task>): (r: nat)
    ensures 1 <= r
    ensures forall i :: 0 <= i < |tasks| ==> tasks[i].id < r
    ensures tasks == [] ==> r == 1
    ensures tasks != [] ==> HasId(tasks, r - 1)
  {
    MaxId(tasks) + 1
  }

  // ---------------------------------------------------------------------------
  // add

  /** The collection after adding a task: a new "todo" task with the next id is
      appended, its two timestamps taken from two readings of the clock. */
  function Add(tasks: seq<Task>, description: string, createdAt: Timestamp, updatedAt: Timestamp): (r: seq<Task>)
    ensures |r| == |tasks| + 1 && r[..|tasks|] == tasks
    ensures r[|tasks|] == Task(NextId(tasks), description, Todo, createdAt, updatedAt)
    ensures forall i :: 0 <= i < |tasks| ==> r[i].id < r[|tasks|].id
    ensures UniqueIds(tasks) ==> UniqueIds(r)
  {
    tasks + [Task(NextId(tasks), description, Todo, createdAt, updatedAt)]
  }

  /** An add on a collection numbered 1..n gives it id n + 1; so a run of adds on
      an empty store numbers the tasks 1, 2, ..., n in creation order. */
  lemma AddKeepsNumbering(tasks: seq<Task>, description: string, createdAt: Timestamp, updatedAt: Timestamp)
    requires NumberedFromOne(tasks)
    ensures NextId(tasks) == |tasks| + 1
    ensures NumberedFromOne(Add(tasks, description, createdAt, updatedAt))
  {
    if tasks != [] {
      var j :| 0 <= j < |tasks| && tasks[j].id == MaxId(tasks);
      assert tasks[|tasks| - 1].id == |tasks|;
    }
  }

  // ---------------------------------------------------------------------------
  // update and mark

  /** What update and mark write into the matching task. */
  datatype Edit = Describe(description: string) | Mark(status: string)

  /** One task after an edit: the edited field is replaced and updatedAt refreshed;
      id, createdAt and the other text field stay. Any status string is accepted. */
  function Apply(t: Task, e: Edit, now: Timestamp): (r: Task)
    ensures r.id == t.id && r.createdAt == t.createdAt && r.updatedAt == now
    ensures e.Describe? ==> r.description == e.description && r.status == t.status
    ensures e.Mark? ==> r.status == e.status && r.description == t.description
  {
    match e
    case Describe(d) => t.(description := d, updatedAt := now)
    case Mark(s) => t.(status := s, updatedAt := now)
  }

  /** Index i holds the first task with the given id. */
  predicate IsFirstMatch(tasks: seq<Task>, id: int, i: int) {
    0 <= i < |tasks| && tasks[i].id == id && forall k :: 0 <= k < i ==> tasks[k].id != id
  }

  /** The collection after editing the first task with the given id; unchanged
      when no task has that id. */
  function EditFirst(tasks: seq<Task>, id: int, e: Edit, now: Timestamp): (r: seq<Task>)
    ensures |r| == |tasks|
    ensures forall k :: 0 <= k < |tasks| ==> r[k].id == tasks[k].id && r[k].createdAt == tasks[k].createdAt
    ensures UniqueIds(tasks) ==> UniqueIds(r)
  {
    if tasks == [] then []
    else if tasks[0].id == id then [Apply(tasks[0], e, now)] + tasks[1..]
    else [tasks[0]] + EditFirst(tasks[1..], id, e, now)
  }

  /** When index i holds the first match, exactly that task is edited and every
      other task (and the order) is untouched. */
  lemma {:induction false} EditFirstAt(tasks: seq<Task>, id: int, e: Edit, now: Timestamp, i: int)
    requires IsFirstMatch(tasks, id, i)
    ensures EditFirst(tasks, id, e, now) == tasks[i := Apply(tasks[i], e, now)]
  {
    if i > 0 {
      assert tasks[0].id != id;
      assert IsFirstMatch(tasks[1..], id, i - 1);
      EditFirstAt(tasks[1..], id, e, now, i - 1);
      assert tasks[i := Apply(tasks[i], e, now)] == [tasks[0]] + tasks[1..][i - 1 := Apply(tasks[i], e, now)];
    }
  }

  /** An id that is not present leaves the collection exactly as it was. */
  lemma {:induction false} EditFirstAbsent(tasks: seq<Task>, id: int, e: Edit, now: Timestamp)
    requires !HasId(tasks, id)
    ensures EditFirst(tasks, id, e, now) == tasks
  {
    if tasks != [] {
      assert tasks[0].id != id;
      HasIdSplit(tasks, id);
      EditFirstAbsent(tasks[1..], id, e, now);
      assert [tasks[0]] + tasks[1..] == tasks;
    }
  }

  /** A present id has a first match. */
  lemma {:induction false} FirstMatchExists(tasks: seq<Task>, id: int) returns (i: nat)
    requires HasId(tasks, id)
    ensures IsFirstMatch(tasks, id, i)
  {
    if tasks[0].id == id {
      i := 0;
    } else {
      var j :| 0 <= j < |tasks| && tasks[j].id == id;
      assert tasks[1..][j - 1].id == id;
      var i' := FirstMatchExists(tasks[1..], id);
      i := i' + 1;
    }
  }

  /** Update or mark on a present id: the first task with that id, and no other,
      receives the edit; length and order are unchanged. With unique ids this
      is the one task carrying the id. */
  lemma EditFirstPresent(tasks: seq<Task>, id: int, e: Edit, now: Timestamp)
    requires HasId(tasks, id)
    ensures exists i :: IsFirstMatch(tasks, id, i) && EditFirst(tasks, id, e, now) == tasks[i := Apply(tasks[i], e, now)]
    ensures UniqueIds(tasks) ==> forall i :: 0 <= i < |tasks| && tasks[i].id == id ==>
      EditFirst(tasks, id, e, now) == tasks[i := Apply(tasks[i], e, now)]
  {
    var i := FirstMatchExists(tasks, id);
    EditFirstAt(tasks, id, e, now, i);
    if UniqueIds(tasks) {
      forall j | 0 <= j < |tasks| && tasks[j].id == id
        ensures EditFirst(tasks, id, e, now) == tasks[j := Apply(tasks[j], e, now)]
      {
        assert IsFirstMatch(tasks, id, j);
        EditFirstAt(tasks, id, e, now, j);
      }
    }
  }

  // ---------------------------------------------------------------------------
  // Filtering (the comprehensions of delete and list)

  /** `a` is an order-preserving subsequence of `b`. */
  predicate IsSubsequence<T(==)>(a: seq<T>, b: seq<T>)
    decreases |b|
  {
    if a == [] then true
    else if b == [] then false
    else if a[0] == b[0] then IsSubsequence(a[1..], b[1..])
    else IsSubsequence(a, b[1..])
  }

  /** The tasks that satisfy `keep`, in their original order. */
  function Filter(tasks: seq<Task>, keep: Task -> bool): (r: seq<Task>)
    ensures |r| <= |tasks|
    ensures forall k :: 0 <= k < |r| ==> keep(r[k]) && r[k] in tasks
  {
    if tasks == [] then []
    else if keep(tasks[0]) then [tasks[0]] + Filter(tasks[1..], keep)
    else Filter(tasks[1..], keep)
  }

  lemma {:induction false} FilterIsSubsequence(tasks: seq<Task>, keep: Task -> bool)
    ensures IsSubsequence(Filter(tasks, keep), tasks)
  {
    if tasks != [] {
      FilterIsSubsequence(tasks[1..], keep);
      var r := Filter(tasks, keep);
      if keep(tasks[0]) {
        assert r[0] == tasks[0] && r[1..] == Filter(tasks[1..], keep);
      } else if r != [] {
        assert r[0] != tasks[0];
      }
    }
  }

  /** Filter keeps every occurrence of a kept task and no occurrence of any other. */
  lemma {:induction false} FilterCount(tasks: seq<Task>, keep: Task -> bool, t: Task)
    ensures multiset(Filter(tasks, keep))[t] == if keep(t) then multiset(tasks)[t] else 0
  {
    if tasks != [] {
      FilterCount(tasks[1..], keep, t);
      assert tasks == [tasks[0]] + tasks[1..];
      assert multiset(tasks) == multiset([tasks[0]]) + multiset(tasks[1..]);
      if keep(tasks[0]) {
        assert multiset(Filter(tasks, keep)) == multiset([tasks[0]]) + multiset(Filter(tasks[1..], keep));
      }
    }
  }

  /** Filter drops nothing exactly when every task is kept, and then returns the input itself. */
  lemma {:induction false} FilterKeepsAll(tasks: seq<Task>, keep: Task -> bool)
    ensures |Filter(tasks, keep)| == |tasks| <==> forall k :: 0 <= k < |tasks| ==> keep(tasks[k])
    ensures (forall k :: 0 <= k < |tasks| ==> keep(tasks[k])) ==> Filter(tasks, keep) == tasks
  {
    if tasks != [] {
      FilterKeepsAll(tasks[1..], keep);
      if keep(tasks[0]) {
        assert forall k :: 1 <= k < |tasks| ==> tasks[k] == tasks[1..][k - 1];
        assert [tasks[0]] + tasks[1..] == tasks;
      } else {
        assert |Filter(tasks[1..], keep)| <= |tasks[1..]|;
      }
    }
  }

  lemma {:induction false} FilterKeepsUnique(tasks: seq<Task>, keep: Task -> bool)
    requires UniqueIds(tasks)
    ensures UniqueIds(Filter(tasks, keep))
  {
    if tasks != [] {
      FilterKeepsUnique(tasks[1..], keep);
      if keep(tasks[0]) {
        var rest := Filter(tasks[1..], keep);
        forall k | 0 <= k < |rest| ensures rest[k].id != tasks[0].id {
          var j :| 0 <= j < |tasks[1..]| && tasks[1..][j] == rest[k];
          assert tasks[j + 1] == rest[k];
        }
        var r := Filter(tasks, keep);
        assert r == [tasks[0]] + rest;
        forall i, j | 0 <= i < j < |r| ensures r[i].id != r[j].id {
          if i == 0 {
            assert r[j] == rest[j - 1];
          } else {
            assert r[i] == rest[i - 1] && r[j] == rest[j - 1];
          }
        }
      }
    }
  }

  lemma {:induction false} FilterAppend(a: seq<Task>, b: seq<Task>, keep: Task -> bool)
    ensures Filter(a + b, keep) == Filter(a, keep) + Filter(b, keep)
  {
    if a != [] {
      assert (a + b)[0] == a[0] && (a + b)[1..] == a[1..] + b;
      FilterAppend(a[1..], b, keep);
    } else {
      assert a + b == b;
    }
  }

  // ---------------------------------------------------------------------------
  // delete

  /** The collection without the tasks carrying the given id. */
  function Delete(tasks: seq<Task>, id: int): (r: seq<Task>)
    ensures forall k :: 0 <= k < |r| ==> r[k].id != id && r[k] in tasks
  {
    Filter(tasks, (t: Task) => t.id != id)
  }

  /** Delete returns the order-preserving subsequence of the tasks whose id
      differs from the target: every such task is kept, every other one dropped. */
  lemma DeleteIsSelection(tasks: seq<Task>, id: int)
    ensures IsSubsequence(Delete(tasks, id), tasks)
    ensures forall t :: multiset(Delete(tasks, id))[t] == if t.id != id then multiset(tasks)[t] else 0
  {
    FilterIsSubsequence(tasks, (t: Task) => t.id != id);
    forall t ensures multiset(Delete(tasks, id))[t] == if t.id != id then multiset(tasks)[t] else 0 {
      FilterCount(tasks, (t: Task) => t.id != id, t);
    }
  }

  /** The length stays the same exactly when no task has the id, and then the
      collection is unchanged. */
  lemma DeleteNotFound(tasks: seq<Task>, id: int)
    ensures |Delete(tasks, id)| == |tasks| <==> !HasId(tasks, id)
    ensures !HasId(tasks, id) ==> Delete(tasks, id) == tasks
  {
    FilterKeepsAll(tasks, (t: Task) => t.id != id);
  }

  lemma DeleteKeepsUnique(tasks: seq<Task>, id: int)
    requires UniqueIds(tasks)
    ensures UniqueIds(Delete(tasks, id))
  {
    FilterKeepsUnique(tasks, (t: Task) => t.id != id);
  }

  /** With unique ids, deleting a present id removes exactly one task. */
  lemma {:induction false} DeleteRemovesOne(tasks: seq<Task>, id: int)
    requires UniqueIds(tasks) && HasId(tasks, id)
    ensures |Delete(tasks, id)| == |tasks| - 1
  {
    if tasks[0].id == id {
      HasIdSplit(tasks, id);
      DeleteNotFound(tasks[1..], id);
    } else {
      var j :| 0 <= j < |tasks| && tasks[j].id == id;
      assert tasks[1..][j - 1].id == id;
      assert UniqueIds(tasks[1..]) by {
        forall a, b | 0 <= a < b < |tasks[1..]| ensures tasks[1..][a].id != tasks[1..][b].id {
          assert tasks[1..][a] == tasks[a + 1] && tasks[1..][b] == tasks[b + 1];
        }
      }
      DeleteRemovesOne(tasks[1..], id);
    }
  }

  /** Allocation reads only the ids present, so deleting the task just added
      restores the collection and the same id is handed out again. */
  lemma AddThenDeleteReusesId(tasks: seq<Task>, description: string, createdAt: Timestamp, updatedAt: Timestamp)
    ensures Delete(Add(tasks, description, createdAt, updatedAt), NextId(tasks)) == tasks
    ensures NextId(Delete(Add(tasks, description, createdAt, updatedAt), NextId(tasks))) == NextId(tasks)
  {
    var id := NextId(tasks);
    var added := Task(id, description, Todo, createdAt, updatedAt);
    FilterAppend(tasks, [added], (t: Task) => t.id != id);
    DeleteNotFound(tasks, id);
    assert Filter([added], (t: Task) => t.id != id) == [];
    assert Add(tasks, description, createdAt, updatedAt) == tasks + [added];
  }

  // ---------------------------------------------------------------------------
  // list

  /** The tasks list shows. A filter that is absent or the empty string (falsy)
      shows everything; any other string keeps the tasks with exactly that
      status, in order. */
  function List(tasks: seq<Task>, filter: Option<string>): (r: seq<Task>)
    ensures filter == None || filter == Some("") ==> r == tasks
    ensures forall k :: 0 <= k < |r| ==> r[k] in tasks
  {
    if filter.Some? && filter.value != "" then Filter(tasks, (t: Task) => t.status == filter.value) else tasks
  }

  /** A truthy filter returns the order-preserving subsequence holding exactly
      the tasks with that status. */
  lemma ListByStatus(tasks: seq<Task>, status: string)
    requires status != ""
    ensures IsSubsequence(List(tasks, Some(status)), tasks)
    ensures forall k :: 0 <= k < |List(tasks, Some(status))| ==> List(tasks, Some(status))[k].status == status
    ensures forall t :: multiset(List(tasks, Some(status)))[t] == if t.status == status then multiset(tasks)[t] else 0
  {
    FilterIsSubsequence(tasks, (t: Task) => t.status == status);
    forall t ensures multiset(List(tasks, Some(status)))[t] == if t.status == status then multiset(tasks)[t] else 0 {
      FilterCount(tasks, (t: Task) => t.status == status, t);
    }
  }
}
