/**
  The four task routes as one request handler over the store, with the
  created (201), ok (200) and not-found (404) outcomes as response variants,
  and runs of requests against a store that starts empty.
 */
module TaskService {
  import opened Wrappers
  import opened TaskStore

  /** A request to one of the task routes; the path id is an integer. */
  datatype Request =
    | GetTasks
    | PostTask(payload: TaskPayload)
    | PutTask(taskId: int, payload: TaskPayload)
    | DeleteTask(taskId: int)

  /** A response: `Created` is the 201 outcome, `NotFoundReply` the 404 one, the rest are 200. */
  datatype Response =
    | TaskList(tasks: seq<Task>)
    | Created(task: Task)
    | Updated(task: Task)
    | Deleted(message: string)
    | NotFoundReply(detail: string)

  /** The store after a request and the response sent back. */
  datatype Step = Step(store: Store, response: Response)

  /** Handles one request against the store. */
  function Handle(s: Store, req: Request): (r: Step)
    ensures r.response.NotFoundReply? <==>
              (req.PutTask? || req.DeleteTask?) && !HasId(s, req.taskId)
    ensures r.response.NotFoundReply? ==> r.store == s && r.response.detail == NotFoundDetail
    ensures req.GetTasks? ==> r.store == s && r.response == TaskList(s)
    ensures req.PostTask? ==>
              && r.response.Created? && r.store == s + [r.response.task]
              && Create(s, req.payload) == Reply(r.store, r.response.task)
    ensures req.PutTask? && HasId(s, req.taskId) ==>
              && r.response.Updated?
              && Update(s, req.taskId, req.payload) == Success(Reply(r.store, r.response.task))
    ensures req.DeleteTask? && HasId(s, req.taskId) ==>
              && r.response == Deleted(DeletedMessage)
              && Delete(s, req.taskId) == Success(Reply(r.store, DeletedMessage))
    ensures req.PutTask? && r.response.Updated? ==> |r.store| == |s|
    ensures req.DeleteTask? && r.response.Deleted? ==> |r.store| == |s| - 1
  {
    match req
    case GetTasks =>
      var l := List(s);
      Step(l.store, TaskList(l.body))
    case PostTask(p) =>
      var c := Create(s, p);
      assert c.store == s + [c.body] by { assert c.store == c.store[..|s|] + [c.store[|s|]]; }
      Step(c.store, Created(c.body))
    case PutTask(id, p) =>
      (match Update(s, id, p)
       case Success(u) => Step(u.store, Updated(u.body))
       case Failure(e) => Step(s, NotFoundReply(e.detail)))
    case DeleteTask(id) =>
      (match Delete(s, id)
       case Success(d) => Step(d.store, Deleted(d.body))
       case Failure(e) => Step(s, NotFoundReply(e.detail)))
  }

  /**
    Handles the requests of `reqs` in order against one shared store,
    returning the final store and every response.
   */
  function Run(s: Store, reqs: seq<Request>): (r: (Store, seq<Response>))
    ensures |r.1| == |reqs|
    ensures |reqs| > 0 ==> r.1[0] == Handle(s, reqs[0]).response
    decreases |reqs|
  {
    if |reqs| == 0 then (s, [])
    else
      var st := Handle(s, reqs[0]);
      var rest := Run(st.store, reqs[1..]);
      (rest.0, [st.response] + rest.1)
  }

  /** A run of list requests leaves the shared store as it was and answers each with the whole store. */
  lemma {:induction false} ListRunKeepsStore(s: Store, reqs: seq<Request>)
    requires forall i :: 0 <= i < |reqs| ==> reqs[i].GetTasks?
    ensures Run(s, reqs).0 == s
    ensures forall i :: 0 <= i < |reqs| ==> Run(s, reqs).1[i] == TaskList(s)
    decreases |reqs|
  {
    if |reqs| > 0 {
      assert forall i :: 0 <= i < |reqs[1..]| ==> reqs[1..][i] == reqs[i + 1];
      ListRunKeepsStore(s, reqs[1..]);
    }
  }

  /**
    Running two batches of requests one after the other is the same as
    running them as one batch: the store carries over between requests.
   */
  lemma {:induction false} RunConcat(s: Store, a: seq<Request>, b: seq<Request>)
    ensures var ra := Run(s, a);
            var rb := Run(ra.0, b);
            Run(s, a + b) == (rb.0, ra.1 + rb.1)
    decreases |a|
  {
    if |a| > 0 {
      assert (a + b)[0] == a[0];
      assert (a + b)[1..] == a[1..] + b;
      var h := Handle(s, a[0]);
      RunConcat(h.store, a[1..], b);
      var ra' := Run(h.store, a[1..]);
      var rb := Run(ra'.0, b);
      assert Run(s, a).0 == ra'.0;
      assert Run(s, a + b).1 == [h.response] + (ra'.1 + rb.1);
      assert [h.response] + (ra'.1 + rb.1) == ([h.response] + ra'.1) + rb.1;
    } else {
      assert a + b == b;
      assert Run(s, a).1 + Run(s, b).1 == Run(s, b).1;
    }
  }

  /** A run of one request is that request handled against the starting store. */
  lemma RunOne(s: Store, x: Request)
    ensures Run(s, [x]) == (Handle(s, x).store, [Handle(s, x).response])
  {
    var h := Handle(s, x);
    assert [x][1..] == [];
    assert Run(h.store, []) == (h.store, []);
    assert [h.response] + [] == [h.response];
  }

  /**
    Each request is handled against the store the requests before it left:
    appending a request to a run handles it on the run's final store.
   */
  lemma RunSnoc(s: Store, reqs: seq<Request>, x: Request)
    ensures var r := Run(s, reqs);
            Run(s, reqs + [x]) == (Handle(r.0, x).store, r.1 + [Handle(r.0, x).response])
  {
    RunConcat(s, reqs, [x]);
    RunOne(Run(s, reqs).0, x);
  }

  /**
    Creating a task titled "A" in the empty store answers with id 1, and
    listing afterwards returns just that task with the default fields.
   */
  lemma CreateThenList()
    ensures var r := Run([], [PostTask(NewPayload("A")), GetTasks]);
            && r.1[0] == Created(Task(Some(1), "A", None, false))
            && r.1[1] == TaskList([Task(Some(1), "A", None, false)])
  {
    var s1 := Handle([], PostTask(NewPayload("A")));
    assert s1.store == [Task(Some(1), "A", None, false)];
  }

  /**
    Ids are not unique in general: create, create, delete id 1, then create
    with the default id leaves two tasks that both carry id 2.
   */
  lemma DuplicateIdAfterDelete()
    ensures var r := Run([], [ PostTask(NewPayload("Buy milk")), PostTask(NewPayload("Walk dog"))
                             , DeleteTask(1), PostTask(NewPayload("Read book")) ]);
            && r.0 == [Task(Some(2), "Walk dog", None, false), Task(Some(2), "Read book", None, false)]
            && r.1[2] == Deleted(DeletedMessage)
            && r.1[3] == Created(Task(Some(2), "Read book", None, false))
  {
    var milk := Task(Some(1), "Buy milk", None, false);
    var dog := Task(Some(2), "Walk dog", None, false);
    var s2 := Handle(Handle([], PostTask(NewPayload("Buy milk"))).store, PostTask(NewPayload("Walk dog"))).store;
    assert s2 == [milk, dog];
    assert IsFirstMatch(s2, 1, 0);
    var s3 := Handle(s2, DeleteTask(1));
    assert s3.store == [dog];
  }
}
