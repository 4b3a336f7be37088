/**
  The in-memory task store: an ordered sequence of task records and the four
  operations the service exposes over it (list, create, update, delete).

  Every operation is a pure function from the store before the request to
  the store after it, paired with the response body; update and delete fail
  with a not-found error when no task carries the requested id.
 */
module TaskStore {
  import opened Wrappers

  /** A task record. A task whose id is `None` is never matched by id. */
  datatype Task = Task(id: Option<int>, title: string, description: Option<string>, completed: bool)

  /** The process-wide task collection, in insertion order. */
  type Store = seq<Task>

  /** The id field of a request body: left out (so the store picks one), or given, possibly as null. */
  datatype IdField = Omitted | Given(value: Option<int>)

  /** A validated request body for create and update. */
  datatype TaskPayload = TaskPayload(id: IdField, title: string, description: Option<string>, completed: bool)

  /** The new store together with the response body. */
  datatype Reply<+T> = Reply(store: Store, body: T)

  /** The only failure the store reports: no task carries the requested id. */
  datatype StoreError = NotFound(detail: string)

  const NotFoundDetail: string := "Task not found"
  const DeletedMessage: string := "Task deleted successfully"

  /** A body that gives only a title: description and completion take their defaults. */
  function NewPayload(title: string): (p: TaskPayload)
    ensures p.id == Omitted && p.title == title
    ensures p.description == None && !p.completed
  {
    TaskPayload(Omitted, title, None, false)
  }

  /** Whether task `t` is the one a request path naming `id` refers to. */
  predicate Matches(t: Task, id: int) {
    t.id == Some(id)
  }

  /** Some task of `s` carries `id`. */
  predicate HasId(s: Store, id: int) {
    exists k :: 0 <= k < |s| && Matches(s[k], id)
  }

  /** `k` is the position of the first task of `s` carrying `id`. */
  predicate IsFirstMatch(s: Store, id: int, k: int) {
    && 0 <= k < |s|
    && Matches(s[k], id)
    && forall j :: 0 <= j < k ==> !Matches(s[j], id)
  }

  /** The position of the first task carrying `id`, scanning from the front. */
  function FindFirst(s: Store, id: int): (r: Option<nat>)
    ensures r.Some? ==> IsFirstMatch(s, id, r.value)
    ensures r.None? <==> !HasId(s, id)
  {
    if |s| == 0 then None
    else if Matches(s[0], id) then Some(0)
    else
      match FindFirst(s[1..], id)
      case None => None
      case Some(k) => Some(k + 1)
  }

  /** The task a create request stores: an omitted id defaults to the store size plus one. */
  function BuildTask(s: Store, p: TaskPayload): (t: Task)
    ensures p.id.Omitted? ==> t.id == Some(|s| + 1)
    ensures p.id.Given? ==> t.id == p.id.value
    ensures t.title == p.title && t.description == p.description && t.completed == p.completed
  {
    var id := match p.id
      case Omitted => Some(|s| + 1)
      case Given(v) => v;
    Task(id, p.title, p.description, p.completed)
  }

  /** List: the body is the whole store, in order, and the store is untouched. */
  function List(s: Store): (r: Reply<seq<Task>>)
    ensures r.store == s
    ensures r.body == s
  {
    Reply(s, s)
  }

  /** Create: append the task built from the payload and echo it back. */
  function Create(s: Store, p: TaskPayload): (r: Reply<Task>)
    ensures |r.store| == |s| + 1
    ensures r.store[..|s|] == s
    ensures r.store[|s|] == r.body
    ensures p.id.Omitted? ==> r.body.id == Some(|s| + 1)
    ensures p.id.Given? ==> r.body.id == p.id.value
    ensures r.body.title == p.title && r.body.description == p.description
    ensures r.body.completed == p.completed
  {
    var t := BuildTask(s, p);
    Reply(s + [t], t)
  }

  /** The task at a matched position after an update: id kept, the other fields from the payload. */
  function Overwrite(t: Task, p: TaskPayload): (u: Task)
    ensures u.id == t.id
    ensures u.title == p.title && u.description == p.description && u.completed == p.completed
  {
    t.(title := p.title, description := p.description, completed := p.completed)
  }

  /**
    Update: overwrite title, description and completion of the first task
    carrying `id`. The id inside the payload plays no part.
   */
  function Update(s: Store, id: int, p: TaskPayload): (r: Result<Reply<Task>, StoreError>)
    ensures r.Failure? <==> !HasId(s, id)
    ensures r.Failure? ==> r.error == NotFound(NotFoundDetail)
    ensures r.Success? ==>
              && |r.value.store| == |s|
              && (forall j :: 0 <= j < |s| && !IsFirstMatch(s, id, j) ==> r.value.store[j] == s[j])
              && exists k ::
                   && IsFirstMatch(s, id, k)
                   && r.value.store[k] == r.value.body
                   && r.value.body.id == s[k].id
                   && r.value.body.title == p.title
                   && r.value.body.description == p.description
                   && r.value.body.completed == p.completed
  {
    match FindFirst(s, id)
    case None => Failure(NotFound(NotFoundDetail))
    case Some(k) =>
      FirstMatchUnique(s, id, k);
      var t := Overwrite(s[k], p);
      Success(Reply(s[k := t], t))
  }

  /**
    Removes the first element of `s` equal to `t`, as a list's `remove` does.
    The caller must pass a value that occurs: `remove` raises otherwise.
   */
  function RemoveFirst(s: Store, t: Task): (r: Store)
    requires t in s
    ensures |r| == |s| - 1
    ensures exists i :: 0 <= i < |s| && s[i] == t && t !in s[..i] && r == s[..i] + s[i + 1..]
  {
    if s[0] == t then
      assert s[..0] + s[1..] == s[1..];
      s[1..]
    else
      TailHolds(s, t);
      var r' := RemoveFirst(s[1..], t);
      ghost var i :| 0 <= i < |s[1..]| && s[1..][i] == t && t !in s[1..][..i] && r' == s[1..][..i] + s[1..][i + 1..];
      PrependKeepsRemoval(s, t, i, r');
      [s[0]] + r'
  }

  /** A value that occurs in `s` but is not its head occurs in its tail. */
  lemma TailHolds(s: Store, t: Task)
    requires t in s && s[0] != t
    ensures t in s[1..]
  {
  }

  /** Putting the head back in front of a removal from the tail is a removal from the whole sequence. */
  lemma PrependKeepsRemoval(s: Store, t: Task, i: nat, r': Store)
    requires 0 < |s| && s[0] != t && i < |s| - 1
    requires s[1..][i] == t && t !in s[1..][..i] && r' == s[1..][..i] + s[1..][i + 1..]
    ensures s[i + 1] == t && t !in s[..i + 1] && [s[0]] + r' == s[..i + 1] + s[i + 2..]
  {
  }

  /** `RemoveFirst` takes away one occurrence of `t` and keeps every other element. */
  lemma {:induction false} RemoveFirstMultiset(s: Store, t: Task)
    requires t in s
    ensures multiset(RemoveFirst(s, t)) == multiset(s) - multiset{t}
  {
    assert s == [s[0]] + s[1..];
    if s[0] != t {
      assert t in s[1..] by {
        var j :| 0 <= j < |s| && s[j] == t;
        assert s[1..][j - 1] == t;
      }
      RemoveFirstMultiset(s[1..], t);
    }
  }

  /**
    Delete: remove the first task carrying `id`. The removal goes through
    `RemoveFirst` on the matched task itself, as the delete handler's `tasks.remove(task)` does; no earlier
    task can equal it, because none carries `id`.
   */
  function Delete(s: Store, id: int): (r: Result<Reply<string>, StoreError>)
    ensures r.Failure? <==> !HasId(s, id)
    ensures r.Failure? ==> r.error == NotFound(NotFoundDetail)
    ensures r.Success? ==>
              && r.value.body == DeletedMessage
              && |r.value.store| == |s| - 1
              && exists k ::
                   && IsFirstMatch(s, id, k)
                   && (forall j :: 0 <= j < k ==> r.value.store[j] == s[j])
                   && (forall j :: k <= j < |r.value.store| ==> r.value.store[j] == s[j + 1])
  {
    match FindFirst(s, id)
    case None => Failure(NotFound(NotFoundDetail))
    case Some(k) =>
      RemoveFirstMatchIsRemoveAt(s, id, k);
      Success(Reply(RemoveFirst(s, s[k]), DeletedMessage))
  }

  /** The first match is unique: two positions that are both first matches coincide. */
  lemma FirstMatchUnique(s: Store, id: int, k: nat)
    requires IsFirstMatch(s, id, k)
    ensures forall j :: IsFirstMatch(s, id, j) <==> j == k
  {
  }

  /** Removing the first task equal to the first id match removes exactly that position. */
  lemma RemoveFirstMatchIsRemoveAt(s: Store, id: int, k: nat)
    requires IsFirstMatch(s, id, k)
    ensures RemoveFirst(s, s[k]) == s[..k] + s[k + 1..]
  {
  }
}
