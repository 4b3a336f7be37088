/**
  Properties of the task store that relate several operations: the default
  id rule over a run of creates, id uniqueness and how each operation affects
  it, repeated deletes, and repeated updates.
 */
module TaskProperties {
  import opened Wrappers
  import opened TaskStore

  /** No id is carried by two tasks (null ids never clash, since they never match). */
  predicate IdsUnique(s: Store) {
    forall i, j :: 0 <= i < j < |s| && s[i].id.Some? ==> s[i].id != s[j].id
  }

  /** Every task carries its 1-based position as id. */
  predicate IdsArePositions(s: Store) {
    forall i :: 0 <= i < |s| ==> s[i].id == Some(i + 1)
  }

  /** Every payload leaves the id out. */
  predicate AllDefaultIds(ps: seq<TaskPayload>) {
    forall i :: 0 <= i < |ps| ==> ps[i].id.Omitted?
  }

  /** The store after creating the tasks of `ps` one after another. */
  function CreateAll(s: Store, ps: seq<TaskPayload>): (r: Store)
    ensures |r| == |s| + |ps|
    ensures r[..|s|] == s
    decreases |ps|
  {
    if |ps| == 0 then s
    else CreateAll(Create(s, ps[0]).store, ps[1..])
  }

  /** How many tasks of `s` carry `id`. */
  function CountId(s: Store, id: int): nat {
    if |s| == 0 then 0
    else (if Matches(s[0], id) then 1 else 0) + CountId(s[1..], id)
  }

  /**
    Creates with default ids continue the numbering: if the store's ids are its
    positions, they still are after any run of default-id creates.
   */
  lemma {:induction false} DefaultIdsArePositions(s: Store, ps: seq<TaskPayload>)
    requires IdsArePositions(s)
    requires AllDefaultIds(ps)
    ensures IdsArePositions(CreateAll(s, ps))
    decreases |ps|
  {
    if |ps| > 0 {
      var s' := Create(s, ps[0]).store;
      assert IdsArePositions(s') by {
        forall i | 0 <= i < |s'| ensures s'[i].id == Some(i + 1) {
          if i < |s| {
            assert s'[i] == s'[..|s|][i];
          }
        }
      }
      assert AllDefaultIds(ps[1..]) by {
        forall i | 0 <= i < |ps[1..]| ensures ps[1..][i].id.Omitted? {
          assert ps[1..][i] == ps[i + 1];
        }
      }
      DefaultIdsArePositions(s', ps[1..]);
    }
  }

  /** Positional ids are unique ids. */
  lemma PositionsAreUnique(s: Store)
    requires IdsArePositions(s)
    ensures IdsUnique(s)
  {
  }

  /**
    Starting from the empty store, creates with default ids and no deletes
    give the i-th task id i, so no two tasks share an id.
   */
  lemma FreshStoreDefaultIds(ps: seq<TaskPayload>)
    requires AllDefaultIds(ps)
    ensures IdsArePositions(CreateAll([], ps))
    ensures IdsUnique(CreateAll([], ps))
  {
    DefaultIdsArePositions([], ps);
    PositionsAreUnique(CreateAll([], ps));
  }

  /**
    Create keeps ids unique exactly when the store had unique ids and the
    new task's id is null or not already held by a task.
   */
  lemma CreateUniqueIff(s: Store, p: TaskPayload)
    ensures var t := Create(s, p).body;
            IdsUnique(Create(s, p).store) <==>
              IdsUnique(s) && (t.id.None? || !HasId(s, t.id.value))
  {
  }

  /** A default-id create collides exactly when some task already holds the store size plus one. */
  lemma DefaultIdCollides(s: Store, p: TaskPayload)
    requires IdsUnique(s)
    requires p.id.Omitted?
    ensures !IdsUnique(Create(s, p).store) <==> HasId(s, |s| + 1)
  {
    CreateUniqueIff(s, p);
  }

  /** Update keeps every task's id at its position, so it keeps ids unique. */
  lemma UpdateKeepsIds(s: Store, id: int, p: TaskPayload)
    requires Update(s, id, p).Success?
    ensures var s' := Update(s, id, p).value.store;
            |s'| == |s| && forall i :: 0 <= i < |s| ==> s'[i].id == s[i].id
    ensures IdsUnique(s) ==> IdsUnique(Update(s, id, p).value.store)
  {
  }

  /** Delete keeps unique ids unique. */
  lemma DeleteKeepsUnique(s: Store, id: int)
    requires IdsUnique(s)
    requires Delete(s, id).Success?
    ensures IdsUnique(Delete(s, id).value.store)
  {
    var s' := Delete(s, id).value.store;
    var k :| && IsFirstMatch(s, id, k)
             && (forall j :: 0 <= j < k ==> s'[j] == s[j])
             && (forall j :: k <= j < |s'| ==> s'[j] == s[j + 1]);
    forall i, j | 0 <= i < j < |s'| && s'[i].id.Some? ensures s'[i].id != s'[j].id {
      var i0 := if i < k then i else i + 1;
      var j0 := if j < k then j else j + 1;
      assert s'[i] == s[i0] && s'[j] == s[j0];
    }
  }

  /** Counting over a concatenation adds up. */
  lemma {:induction false} CountConcat(a: Store, b: Store, id: int)
    ensures CountId(a + b, id) == CountId(a, id) + CountId(b, id)
    decreases |a|
  {
    if |a| > 0 {
      assert (a + b)[1..] == a[1..] + b;
      CountConcat(a[1..], b, id);
    } else {
      assert a + b == b;
    }
  }

  /** No task carries `id` exactly when the count of `id` is zero. */
  lemma {:induction false} CountZeroIffAbsent(s: Store, id: int)
    ensures CountId(s, id) == 0 <==> !HasId(s, id)
    decreases |s|
  {
    if |s| > 0 {
      CountZeroIffAbsent(s[1..], id);
      if HasId(s[1..], id) {
        var k :| 0 <= k < |s[1..]| && Matches(s[1..][k], id);
        assert Matches(s[k + 1], id);
      }
      if HasId(s, id) && !Matches(s[0], id) {
        var k :| 0 <= k < |s| && Matches(s[k], id);
        assert s[1..][k - 1] == s[k];
      }
    }
  }

  /** Taking out one task that carries `id` lowers the count of `id` by one. */
  lemma CountRemoveAt(s: Store, id: int, k: nat)
    requires k < |s| && Matches(s[k], id)
    ensures CountId(s[..k] + s[k + 1..], id) == CountId(s, id) - 1
  {
    assert s == s[..k] + ([s[k]] + s[k + 1..]);
    CountConcat(s[..k], s[k + 1..], id);
    CountConcat(s[..k], [s[k]] + s[k + 1..], id);
    CountConcat([s[k]], s[k + 1..], id);
    assert CountId([s[k]], id) == 1 by {
      assert [s[k]][1..] == [];
    }
  }

  /** A successful delete removes exactly one of the tasks carrying `id`. */
  lemma DeleteDecrementsCount(s: Store, id: int)
    requires Delete(s, id).Success?
    ensures CountId(Delete(s, id).value.store, id) == CountId(s, id) - 1
  {
    var k := FindFirst(s, id).value;
    RemoveFirstMatchIsRemoveAt(s, id, k);
    assert Delete(s, id).value.store == s[..k] + s[k + 1..];
    CountRemoveAt(s, id, k);
  }

  /** A successful delete takes away one copy of the first matching task and nothing else. */
  lemma DeleteRemovesOneTask(s: Store, id: int)
    requires Delete(s, id).Success?
    ensures exists k :: IsFirstMatch(s, id, k) &&
              multiset(Delete(s, id).value.store) == multiset(s) - multiset{s[k]}
  {
    var k := FindFirst(s, id).value;
    RemoveFirstMultiset(s, s[k]);
    assert Delete(s, id).value.store == RemoveFirst(s, s[k]);
  }

  /**
    Deleting the same id twice: the second delete fails exactly when the
    first one removed the only task carrying that id.
   */
  lemma DeleteTwice(s: Store, id: int)
    requires Delete(s, id).Success?
    ensures Delete(Delete(s, id).value.store, id).Failure? <==> CountId(s, id) == 1
  {
    DeleteDecrementsCount(s, id);
    CountZeroIffAbsent(Delete(s, id).value.store, id);
  }

  /** Two stores whose ids agree position by position have the same first match. */
  lemma {:induction false} SameIdsSameFirstMatch(s: Store, t: Store, id: int)
    requires |s| == |t|
    requires forall i :: 0 <= i < |s| ==> s[i].id == t[i].id
    ensures FindFirst(s, id) == FindFirst(t, id)
    decreases |s|
  {
    if |s| > 0 {
      SameIdsSameFirstMatch(s[1..], t[1..], id);
    }
  }

  /** Applying the same update twice gives the store the first application gave. */
  lemma UpdateIdempotent(s: Store, id: int, p: TaskPayload)
    requires Update(s, id, p).Success?
    ensures var s' := Update(s, id, p).value.store;
            Update(s', id, p) == Success(Reply(s', Update(s, id, p).value.body))
  {
    var s' := Update(s, id, p).value.store;
    UpdateKeepsIds(s, id, p);
    SameIdsSameFirstMatch(s, s', id);
    var k := FindFirst(s, id).value;
    assert s'[k] == Overwrite(s[k], p);
    assert s'[k := Overwrite(s'[k], p)] == s';
  }
}
