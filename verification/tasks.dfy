/** The task controller: create, list (owner-scoped, filtered, newest first),
    update and delete tasks over an immutable model of the task collection.
    Every operation takes the store and returns the next store together with
    the HTTP response the controller sends. */
module Tasks {
  import opened Wrappers
  import opened Ids
  import opened Text

  /** A task document. `description` and `status` are `None` when the
      creating request omitted them (the schema's defaults are not part of
      this model). */
  datatype Task = Task(
    id: TaskId,
    userId: UserId,
    title: string,
    description: Option<string>,
    status: Option<string>,
    createdAt: int)

  /** The task collection, in insertion order. */
  type Store = seq<Task>

  /** The database keeps `_id` unique across the collection. */
  predicate ValidStore(store: Store) {
    forall i, j :: 0 <= i < j < |store| ==> store[i].id != store[j].id
  }

  /** The fields `createTask` reads from a request body. */
  datatype NewTask = NewTask(title: Option<string>, description: Option<string>, status: Option<string>)

  /** A request body for `updateTask`: every task field may be present, and
      a present field is written as given. */
  datatype Patch = Patch(
    id: Option<TaskId>,
    userId: Option<UserId>,
    title: Option<string>,
    description: Option<string>,
    status: Option<string>,
    createdAt: Option<int>)

  const EmptyPatch := Patch(None, None, None, None, None, None)

  const TitleRequired := "Title is required"
  const TaskNotFound := "Task not found"

  /** The JSON responses of the controller. */
  datatype Response =
    | Created(task: Task)
    | Listed(tasks: seq<Task>)
    | Updated(task: Task)
    | Deleted
    | BadRequest(message: string)
    | NotFound(message: string)
  {
    /** The HTTP status code sent with the response. */
    function Code(): nat {
      match this
      case Created(_) => 201
      case Listed(_) => 200
      case Updated(_) => 200
      case Deleted => 200
      case BadRequest(_) => 400
      case NotFound(_) => 404
    }
  }

  /** The store after a request, and the response to it. */
  datatype Step = Step(store: Store, response: Response)

  // ---------- createTask ----------

  /** `createTask`: rejects a missing or empty title with 400; otherwise
      appends a task owned by the caller. The database supplies `freshId`
      and the creation time `now`. */
  function CreateTask(store: Store, uid: UserId, body: NewTask, freshId: TaskId, now: int): (s: Step)
    ensures !Truthy(body.title) ==> s == Step(store, BadRequest(TitleRequired))
    ensures Truthy(body.title) ==>
      && s.response.Created?
      && s.response.Code() == 201
      && s.store == store + [s.response.task]
      && s.response.task.id == freshId
      && s.response.task.userId == uid
      && s.response.task.title == body.title.value
      && s.response.task.description == body.description
      && s.response.task.status == body.status
      && s.response.task.createdAt == now
  {
    if !Truthy(body.title) then
      Step(store, BadRequest(TitleRequired))
    else
      var t := Task(freshId, uid, body.title.value, body.description, body.status, now);
      Step(store + [t], Created(t))
  }

  /** With an identifier the store does not use yet, creating keeps the
      identifiers unique, and every task that was there is still there. */
  lemma CreatePreservesValid(store: Store, uid: UserId, body: NewTask, freshId: TaskId, now: int)
    requires ValidStore(store)
    requires forall t :: t in store ==> t.id != freshId
    ensures ValidStore(CreateTask(store, uid, body, freshId, now).store)
    ensures forall t :: t in store ==> t in CreateTask(store, uid, body, freshId, now).store
  {
    var s := CreateTask(store, uid, body, freshId, now);
    if Truthy(body.title) {
      forall i, j | 0 <= i < j < |s.store| ensures s.store[i].id != s.store[j].id {
        if j == |store| {
          assert store[i] in store;
        }
      }
    }
  }

  // ---------- getTasks ----------

  /** The search string reaches MongoDB's `$regex` unescaped; without these
      characters the pattern matches exactly its literal text. */
  predicate NoRegexMeta(s: string) {
    forall k :: 0 <= k < |s| ==> s[k] !in "\\^$.|?*+()[]{}"
  }

  /** The conjunctive MongoDB query `getTasks` builds: the owner always, a
      status when one was asked for, a title pattern when one was given. */
  datatype Query = Query(owner: UserId, status: Option<string>, title: Option<string>)

  /** Composes the query from the request's `search` and `status`. */
  function BuildQuery(uid: UserId, search: Option<string>, status: Option<string>): (q: Query)
    ensures q.owner == uid
    ensures q.status.Some? <==> Truthy(status)
    ensures q.status.Some? ==> q.status == status
    ensures q.title.Some? <==> Truthy(search)
    ensures q.title.Some? ==> q.title == search
  {
    Query(uid,
      if Truthy(status) then status else None,
      if Truthy(search) then search else None)
  }

  /** A task satisfies every condition of the query. */
  predicate Matches(q: Query, t: Task) {
    && t.userId == q.owner
    && (q.status.None? || t.status == q.status)
    && (q.title.None? || ContainsIgnoringCase(t.title, q.title.value))
  }

  /** The query built from a request matches a task exactly when the task
      belongs to the caller, has the requested status when one was sent, and
      has a title containing the search, ignoring case, when one was sent. */
  lemma QueryMatchesRequest(uid: UserId, search: Option<string>, status: Option<string>, t: Task)
    ensures Matches(BuildQuery(uid, search, status), t) <==>
      && t.userId == uid
      && (!Truthy(status) || t.status == status)
      && (!Truthy(search) || ContainsIgnoringCase(t.title, search.value))
  {
  }

  /** `Task.find(query)`: the tasks that satisfy the query, each as often as
      it occurs in the store. */
  function Select(ts: seq<Task>, q: Query): (r: seq<Task>)
    ensures forall t :: t in r <==> t in ts && Matches(q, t)
    ensures forall t :: multiset(r)[t] == if Matches(q, t) then multiset(ts)[t] else 0
  {
    if |ts| == 0 then []
    else
      var rest := Select(ts[1..], q);
      assert ts == [ts[0]] + ts[1..];
      if Matches(q, ts[0]) then [ts[0]] + rest else rest
  }

  /** Newest first: `createdAt` never increases along the sequence. */
  predicate NewestFirst(ts: seq<Task>) {
    forall i, j :: 0 <= i < j < |ts| ==> ts[i].createdAt >= ts[j].createdAt
  }

  /** Places `t` into an already ordered sequence. */
  function Insert(t: Task, ts: seq<Task>): (r: seq<Task>)
    requires NewestFirst(ts)
    ensures NewestFirst(r)
    ensures multiset(r) == multiset(ts) + multiset{t}
  {
    if |ts| == 0 then [t]
    else if t.createdAt >= ts[0].createdAt then [t] + ts
    else
      var rest := Insert(t, ts[1..]);
      assert multiset([ts[0]] + rest) == multiset(ts) + multiset{t} by {
        assert ts == [ts[0]] + ts[1..];
      }
      InsertBelowHead(t, ts, rest);
      NewestFirstCons(ts[0], rest);
      [ts[0]] + rest
  }

  /** A task no older than every task of an ordered sequence can go in
      front of it. */
  lemma NewestFirstCons(h: Task, rest: seq<Task>)
    requires NewestFirst(rest)
    requires forall k :: 0 <= k < |rest| ==> rest[k].createdAt <= h.createdAt
    ensures NewestFirst([h] + rest)
  {
    var r := [h] + rest;
    forall i, j | 0 <= i < j < |r| ensures r[i].createdAt >= r[j].createdAt {
      assert r[j] == rest[j - 1];
      if i > 0 { assert r[i] == rest[i - 1]; }
    }
  }

  /** What `Insert` places behind the head of `ts` is no newer than it. */
  lemma InsertBelowHead(t: Task, ts: seq<Task>, rest: seq<Task>)
    requires NewestFirst(ts) && |ts| > 0 && t.createdAt < ts[0].createdAt
    requires multiset(rest) == multiset(ts[1..]) + multiset{t}
    ensures forall k :: 0 <= k < |rest| ==> rest[k].createdAt <= ts[0].createdAt
  {
    forall k | 0 <= k < |rest| ensures rest[k].createdAt <= ts[0].createdAt {
      assert rest[k] in multiset(rest);
      if rest[k] != t {
        assert rest[k] in multiset(ts[1..]);
        var m :| 0 <= m < |ts[1..]| && ts[1..][m] == rest[k];
        assert ts[m + 1] == rest[k];
      }
    }
  }

  /** `.sort({ createdAt: -1 })`: a newest-first permutation of `ts`. The
      order among tasks created at the same instant is not specified by the
      database; this model keeps one fixed choice. */
  function SortNewestFirst(ts: seq<Task>): (r: seq<Task>)
    ensures NewestFirst(r)
    ensures multiset(r) == multiset(ts)
  {
    if |ts| == 0 then []
    else
      assert ts == [ts[0]] + ts[1..];
      Insert(ts[0], SortNewestFirst(ts[1..]))
  }

  /** `getTasks`: the caller's tasks, narrowed by status and by a
      case-insensitive title search when those are non-empty, newest first.
      An absent `search` behaves as "". */
  function GetTasks(store: Store, uid: UserId, search: Option<string>, status: Option<string>): (r: seq<Task>)
    requires search.Some? ==> NoRegexMeta(search.value)
    ensures forall t :: t in r ==> t.userId == uid
    ensures Truthy(status) ==> forall t :: t in r ==> t.status == status
    ensures Truthy(search) ==> forall t :: t in r ==> ContainsIgnoringCase(t.title, search.value)
    ensures forall t :: t in r <==>
      && t in store
      && t.userId == uid
      && (!Truthy(status) || t.status == status)
      && (!Truthy(search) || ContainsIgnoringCase(t.title, search.value))
    ensures var q := BuildQuery(uid, search, status);
      forall t :: multiset(r)[t] == if Matches(q, t) then multiset(store)[t] else 0
    ensures NewestFirst(r)
  {
    var selected := Select(store, BuildQuery(uid, search, status));
    var r := SortNewestFirst(selected);
    assert forall t :: t in r <==> t in selected by {
      forall t ensures t in r <==> t in selected {
        assert t in r <==> t in multiset(r);
      }
    }
    r
  }

  /** The response to `getTasks`. */
  function GetTasksResponse(store: Store, uid: UserId, search: Option<string>, status: Option<string>): (s: Step)
    requires search.Some? ==> NoRegexMeta(search.value)
    ensures s.store == store
    ensures s.response.Listed? && s.response.Code() == 200
    ensures forall t :: t in s.response.tasks ==> t in store && t.userId == uid
    ensures s.response.tasks == GetTasks(store, uid, search, status)
  {
    Step(store, Listed(GetTasks(store, uid, search, status)))
  }

  /** A created task is listed for its creator and never for anyone else. */
  lemma CreatedTaskVisibleOnlyToOwner(store: Store, uid: UserId, other: UserId, body: NewTask, freshId: TaskId, now: int)
    requires Truthy(body.title) && other != uid
    ensures var s := CreateTask(store, uid, body, freshId, now);
      && s.response.task in GetTasks(s.store, uid, None, None)
      && s.response.task !in GetTasks(s.store, other, None, None)
  {
  }

  // ---------- ownership lookup ----------

  /** Some task with identifier `id` is owned by `uid`. */
  predicate Owns(store: Store, uid: UserId, id: TaskId) {
    exists t :: t in store && t.id == id && t.userId == uid
  }

  /** `Task.findOne({ _id: id, userId })`: the position of the first task
      with that identifier and owner, searching from `from`. */
  function FindOwned(store: Store, uid: UserId, id: TaskId, from: nat := 0): (r: Option<nat>)
    requires from <= |store|
    ensures r.None? <==> forall i :: from <= i < |store| ==> !(store[i].id == id && store[i].userId == uid)
    ensures r.Some? ==> from <= r.value < |store| && store[r.value].id == id && store[r.value].userId == uid
    decreases |store| - from
  {
    if from == |store| then None
    else if store[from].id == id && store[from].userId == uid then Some(from)
    else FindOwned(store, uid, id, from + 1)
  }

  /** The lookup from the start finds a task exactly when the caller owns one. */
  lemma FindOwnedIffOwns(store: Store, uid: UserId, id: TaskId)
    ensures FindOwned(store, uid, id).Some? <==> Owns(store, uid, id)
  {
    if Owns(store, uid, id) {
      var t :| t in store && t.id == id && t.userId == uid;
      var i :| 0 <= i < |store| && store[i] == t;
    }
  }

  // ---------- updateTask ----------

  /** `findByIdAndUpdate(id, body, { new: true })`: every field present in
      the body is overwritten, including `_id` and `userId`; the others keep
      their values. */
  function ApplyPatch(p: Patch, t: Task): (r: Task)
    ensures r.id == (if p.id.Some? then p.id.value else t.id)
    ensures r.userId == (if p.userId.Some? then p.userId.value else t.userId)
    ensures r.title == (if p.title.Some? then p.title.value else t.title)
    ensures r.description == (if p.description.Some? then p.description else t.description)
    ensures r.status == (if p.status.Some? then p.status else t.status)
    ensures r.createdAt == (if p.createdAt.Some? then p.createdAt.value else t.createdAt)
    ensures p == EmptyPatch ==> r == t
  {
    Task(
      p.id.GetOr(t.id),
      p.userId.GetOr(t.userId),
      p.title.GetOr(t.title),
      if p.description.Some? then p.description else t.description,
      if p.status.Some? then p.status else t.status,
      p.createdAt.GetOr(t.createdAt))
  }

  /** `updateTask`: 404 with the store untouched unless the caller owns a
      task with this identifier; otherwise that task is replaced by its
      patched version and returned. */
  function UpdateTask(store: Store, uid: UserId, id: TaskId, p: Patch): (s: Step)
    ensures !Owns(store, uid, id) ==> s == Step(store, NotFound(TaskNotFound))
    ensures Owns(store, uid, id) ==>
      && s.response.Updated?
      && s.response.Code() == 200
      && |s.store| == |store|
      && exists i :: 0 <= i < |store| && store[i].id == id && store[i].userId == uid
           && s.store == store[i := ApplyPatch(p, store[i])]
           && s.response.task == ApplyPatch(p, store[i])
  {
    FindOwnedIffOwns(store, uid, id);
    match FindOwned(store, uid, id)
    case None => Step(store, NotFound(TaskNotFound))
    case Some(i) =>
      var updated := ApplyPatch(p, store[i]);
      Step(store[i := updated], Updated(updated))
  }

  /** With unique identifiers, a successful update changes only the task
      with that identifier, and in it only the fields the body carries. */
  lemma UpdateOnlyTarget(store: Store, uid: UserId, id: TaskId, p: Patch)
    requires ValidStore(store)
    requires Owns(store, uid, id)
    ensures var s := UpdateTask(store, uid, id, p);
      && |s.store| == |store|
      && forall j :: 0 <= j < |store| ==>
           if store[j].id == id then
             && s.store[j].id == p.id.GetOr(id)
             && s.store[j].userId == p.userId.GetOr(uid)
             && s.store[j].title == p.title.GetOr(store[j].title)
             && (p.description.None? ==> s.store[j].description == store[j].description)
             && (p.description.Some? ==> s.store[j].description == p.description)
             && (p.status.None? ==> s.store[j].status == store[j].status)
             && (p.status.Some? ==> s.store[j].status == p.status)
             && s.store[j].createdAt == p.createdAt.GetOr(store[j].createdAt)
           else s.store[j] == store[j]
  {
  }

  /** An update that carries no field leaves the store as it was. */
  lemma UpdateWithEmptyBody(store: Store, uid: UserId, id: TaskId)
    ensures UpdateTask(store, uid, id, EmptyPatch).store == store
  {
    var s := UpdateTask(store, uid, id, EmptyPatch);
    if Owns(store, uid, id) {
      var i :| 0 <= i < |store| && store[i].id == id && store[i].userId == uid
        && s.store == store[i := ApplyPatch(EmptyPatch, store[i])];
      assert ApplyPatch(EmptyPatch, store[i]) == store[i];
    }
  }

  /** An update that does not rename the task keeps identifiers unique. */
  lemma UpdatePreservesValid(store: Store, uid: UserId, id: TaskId, p: Patch)
    requires ValidStore(store)
    requires p.id.None? || p.id == Some(id)
    ensures ValidStore(UpdateTask(store, uid, id, p).store)
  {
  }

  /** Setting the status to "completed" makes the task appear under the
      "completed" filter and disappear from the "pending" one. */
  lemma UpdateThenListByStatus(store: Store, uid: UserId, id: TaskId)
    requires ValidStore(store)
    requires Owns(store, uid, id)
    ensures var s := UpdateTask(store, uid, id, EmptyPatch.(status := Some("completed")));
      && s.response.task in GetTasks(s.store, uid, None, Some("completed"))
      && forall t :: t in GetTasks(s.store, uid, None, Some("pending")) ==> t.id != id
  {
    UpdatedTaskIsOnlyOneWithId(store, uid, id, EmptyPatch.(status := Some("completed")));
  }

  /** The controller does not protect `userId`: a body that names another
      owner moves the task out of the caller's listing and into that user's. */
  lemma UpdateCanReassignOwner(store: Store, uid: UserId, other: UserId, id: TaskId, p: Patch)
    requires ValidStore(store)
    requires Owns(store, uid, id)
    requires p.userId == Some(other) && other != uid
    requires p.id.None? || p.id == Some(id)
    ensures var s := UpdateTask(store, uid, id, p);
      && s.response.task in GetTasks(s.store, other, None, None)
      && forall t :: t in GetTasks(s.store, uid, None, None) ==> t.id != id
  {
    UpdatedTaskIsOnlyOneWithId(store, uid, id, p);
  }

  /** After an update that does not rename the task, the returned task is in
      the store and is the only one carrying that identifier. */
  lemma UpdatedTaskIsOnlyOneWithId(store: Store, uid: UserId, id: TaskId, p: Patch)
    requires ValidStore(store)
    requires Owns(store, uid, id)
    requires p.id.None? || p.id == Some(id)
    ensures var s := UpdateTask(store, uid, id, p);
      && s.response.Updated?
      && s.response.task in s.store
      && forall t :: t in s.store && t.id == id ==> t == s.response.task
  {
    var s := UpdateTask(store, uid, id, p);
    var i :| 0 <= i < |store| && store[i].id == id && store[i].userId == uid
      && s.store == store[i := ApplyPatch(p, store[i])]
      && s.response.task == ApplyPatch(p, store[i]);
    assert s.store[i] == s.response.task;
    forall t | t in s.store && t.id == id ensures t == s.response.task {
      var j :| 0 <= j < |s.store| && s.store[j] == t;
      if j != i {
        assert false;
      }
    }
  }

  // ---------- deleteTask ----------

  /** `deleteTask`: 404 with the store untouched unless the caller owns a
      task with this identifier; otherwise that task is removed. */
  function DeleteTask(store: Store, uid: UserId, id: TaskId): (s: Step)
    ensures !Owns(store, uid, id) ==> s == Step(store, NotFound(TaskNotFound))
    ensures Owns(store, uid, id) ==>
      && s.response == Deleted
      && s.response.Code() == 200
      && |s.store| == |store| - 1
      && exists i :: 0 <= i < |store| && store[i].id == id && store[i].userId == uid
           && s.store == store[..i] + store[i + 1..]
  {
    FindOwnedIffOwns(store, uid, id);
    match FindOwned(store, uid, id)
    case None => Step(store, NotFound(TaskNotFound))
    case Some(i) => Step(store[..i] + store[i + 1..], Deleted)
  }

  /** With unique identifiers, a successful delete removes exactly the task
      with that identifier and keeps every other task. */
  lemma DeleteRemovesExactlyTarget(store: Store, uid: UserId, id: TaskId)
    requires ValidStore(store)
    requires Owns(store, uid, id)
    ensures var s := DeleteTask(store, uid, id);
      && ValidStore(s.store)
      && forall t :: t in s.store <==> t in store && t.id != id
  {
    var s := DeleteTask(store, uid, id);
    var i :| 0 <= i < |store| && store[i].id == id && store[i].userId == uid
      && s.store == store[..i] + store[i + 1..];
    RemoveAtKeepsOthers(store, i);
  }

  /** Removing position `i` from a store with unique identifiers removes
      exactly the tasks carrying `store[i].id`. */
  lemma RemoveAtKeepsOthers(store: Store, i: nat)
    requires ValidStore(store)
    requires i < |store|
    ensures ValidStore(store[..i] + store[i + 1..])
    ensures forall t :: t in store[..i] + store[i + 1..] <==> t in store && t.id != store[i].id
  {
    RemoveAtMembers(store, i);
    var rest := store[..i] + store[i + 1..];
    forall a, b | 0 <= a < b < |rest| ensures rest[a].id != rest[b].id {
      var a' := if a < i then a else a + 1;
      var b' := if b < i then b else b + 1;
      assert rest[a] == store[a'] && rest[b] == store[b'];
    }
  }

  /** The tasks left after removing position `i` are the others. */
  lemma RemoveAtMembers(store: Store, i: nat)
    requires ValidStore(store)
    requires i < |store|
    ensures forall t :: t in store[..i] + store[i + 1..] <==> t in store && t.id != store[i].id
  {
    var rest := store[..i] + store[i + 1..];
    forall t | t in store && t.id != store[i].id ensures t in rest {
      var k :| 0 <= k < |store| && store[k] == t;
      if k < i { assert rest[k] == t; } else { assert rest[k - 1] == t; }
    }
    forall t | t in rest ensures t in store && t.id != store[i].id {
      var k :| 0 <= k < |rest| && rest[k] == t;
      if k < i { assert store[k] == t; } else { assert store[k + 1] == t; }
    }
  }

  /** Deleting the same task a second time reports 404 and changes nothing. */
  lemma DeleteTwiceNotFound(store: Store, uid: UserId, id: TaskId)
    requires ValidStore(store)
    requires Owns(store, uid, id)
    ensures var once := DeleteTask(store, uid, id).store;
      DeleteTask(once, uid, id) == Step(once, NotFound(TaskNotFound))
  {
    DeleteRemovesExactlyTarget(store, uid, id);
  }

  /** After a delete, updating the same task reports 404. */
  lemma DeleteThenUpdateNotFound(store: Store, uid: UserId, id: TaskId, p: Patch)
    requires ValidStore(store)
    requires Owns(store, uid, id)
    ensures var once := DeleteTask(store, uid, id).store;
      UpdateTask(once, uid, id, p) == Step(once, NotFound(TaskNotFound))
  {
    DeleteRemovesExactlyTarget(store, uid, id);
  }
}
