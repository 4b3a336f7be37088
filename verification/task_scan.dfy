/**
  The update and delete handlers written the way the service runs them: one
  forward scan over the store that stops at the first task carrying the id.
  Each scan is proved to agree with the functional definition in `TaskStore`.
 */
module TaskScan {
  import opened Wrappers
  import opened TaskStore

  /** Update by a forward scan; agrees with `TaskStore.Update` on every input. */
  method UpdateScan(s: Store, id: int, p: TaskPayload) returns (r: Result<Reply<Task>, StoreError>)
    ensures r == Update(s, id, p)
  {
    var i := 0;
    while i < |s|
      invariant 0 <= i <= |s|
      invariant forall j :: 0 <= j < i ==> !Matches(s[j], id)
    {
      if Matches(s[i], id) {
        assert IsFirstMatch(s, id, i);
        FirstMatchUnique(s, id, i);
        var t := Overwrite(s[i], p);
        r := Success(Reply(s[i := t], t));
        return;
      }
      i := i + 1;
    }
    r := Failure(NotFound(NotFoundDetail));
  }

  /**
    Delete by a forward scan; on the first match the matched task itself is
    removed by value, with `RemoveFirst`. Agrees with `TaskStore.Delete`.
   */
  method DeleteScan(s: Store, id: int) returns (r: Result<Reply<string>, StoreError>)
    ensures r == Delete(s, id)
  {
    var i := 0;
    while i < |s|
      invariant 0 <= i <= |s|
      invariant forall j :: 0 <= j < i ==> !Matches(s[j], id)
    {
      if Matches(s[i], id) {
        assert IsFirstMatch(s, id, i);
        FirstMatchUnique(s, id, i);
        r := Success(Reply(RemoveFirst(s, s[i]), DeletedMessage));
        return;
      }
      i := i + 1;
    }
    r := Failure(NotFound(NotFoundDetail));
  }
}
