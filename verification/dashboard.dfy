/** The pure logic of the dashboard page: the skills text field, the task
    counters, the listing query parameters, the status toggle, and the task
    form (its title guard, its submission and its edit defaults). */
module Dashboard {
  import opened Wrappers
  import opened Ids
  import opened Text
  import opened Tasks
  import opened Profile

  // ---------- skills text field ----------

  /** A skill as the parser produces it: not empty, not padded, no comma. */
  predicate CleanSkill(s: string) {
    s != "" && IsTrimmed(s) && ',' !in s
  }

  predicate AllClean(skills: seq<string>) {
    forall k :: 0 <= k < |skills| ==> CleanSkill(skills[k])
  }

  /** `(skills || []).join(", ")`: the text shown in the skills field. */
  function RenderSkills(skills: Option<seq<string>>): (r: string)
    ensures skills.None? ==> r == ""
    ensures skills == Some([]) ==> r == ""
    ensures skills.Some? && |skills.value| == 1 ==> r == skills.value[0]
    ensures skills.Some? ==> forall k :: 0 <= k < |skills.value| ==> Occurs(r, skills.value[k])
  {
    match skills
    case None => ""
    case Some(sk) =>
      JoinKeepsAllParts(sk, ", ");
      Join(sk, ", ")
  }

  /** `.map((s) => s.trim())` */
  function TrimAll(ps: seq<string>): (r: seq<string>)
    ensures |r| == |ps|
    ensures forall k :: 0 <= k < |ps| ==> r[k] == Trim(ps[k])
  {
    if |ps| == 0 then []
    else
      var rest := TrimAll(ps[1..]);
      assert forall k :: 1 <= k < |ps| ==> ps[k] == ps[1..][k - 1];
      [Trim(ps[0])] + rest
  }

  /** `.filter(Boolean)`: drops the empty strings and keeps the rest in order. */
  function DropEmpty(ps: seq<string>): (r: seq<string>)
    ensures forall k :: 0 <= k < |r| ==> r[k] != ""
    ensures forall s :: s in r <==> s in ps && s != ""
    ensures multiset(r) == multiset(ps)[[] := 0]
  {
    if |ps| == 0 then []
    else
      assert ps == [ps[0]] + ps[1..];
      assert multiset(ps) == multiset{ps[0]} + multiset(ps[1..]);
      if ps[0] == "" then DropEmpty(ps[1..])
      else [ps[0]] + DropEmpty(ps[1..])
  }

  /** Filtering works piece by piece, so the kept strings stay in order. */
  lemma {:induction false} DropEmptyAppend(a: seq<string>, b: seq<string>)
    ensures DropEmpty(a + b) == DropEmpty(a) + DropEmpty(b)
  {
    if |a| > 0 {
      assert (a + b)[1..] == a[1..] + b;
      DropEmptyAppend(a[1..], b);
    } else {
      assert a + b == b;
    }
  }

  /** The skills text split on commas, each piece trimmed, empty pieces
      dropped. */
  function ParseSkills(text: string): (r: seq<string>)
    ensures AllClean(r)
  {
    var pieces := Split(text, ',');
    var trimmed := TrimAll(pieces);
    var r := DropEmpty(trimmed);
    assert forall k :: 0 <= k < |trimmed| ==> ',' !in trimmed[k] by {
      forall k | 0 <= k < |trimmed| ensures ',' !in trimmed[k] {
        assert ',' !in pieces[k];
      }
    }
    assert forall k :: 0 <= k < |r| ==> r[k] in trimmed;
    r
  }

  /** Trimming and dropping empties works piece by piece from the front. */
  lemma CleanCons(a: string, tail: seq<string>)
    requires Trim(a) != ""
    ensures DropEmpty(TrimAll([a] + tail)) == [Trim(a)] + DropEmpty(TrimAll(tail))
  {
    assert ([a] + tail)[1..] == tail;
    assert TrimAll([a] + tail) == [Trim(a)] + TrimAll(tail);
    assert ([Trim(a)] + TrimAll(tail))[1..] == TrimAll(tail);
  }

  /** The rendered text of two or more skills is the first skill, a comma,
      and the rest rendered behind a space. */
  lemma JoinCons(p: string, xs: seq<string>)
    requires |xs| > 1
    ensures p + Join(xs, ", ") == (p + xs[0]) + [','] + (" " + Join(xs[1..], ", "))
  {
  }

  /** The parse of pieces that each start with white space and then hold a
      clean skill gives back those skills. */
  lemma {:induction false} ParseAfterSpace(p: string, xs: seq<string>)
    requires AllSpace(p) && ',' !in p
    requires |xs| > 0 && AllClean(xs)
    ensures DropEmpty(TrimAll(Split(p + Join(xs, ", "), ','))) == xs
    decreases |xs|
  {
    if |xs| == 1 {
      ParseOne(p, xs[0]);
    } else {
      CleanTail(xs);
      ParseAfterSpace(" ", xs[1..]);
      ParseStep(p, xs);
    }
  }

  /** The skills behind the first of a clean list are clean. */
  lemma CleanTail(xs: seq<string>)
    requires |xs| > 0 && AllClean(xs)
    ensures AllClean(xs[1..])
  {
    forall k | 0 <= k < |xs| - 1 ensures CleanSkill(xs[1..][k]) {
      assert xs[1..][k] == xs[k + 1];
    }
  }

  /** One clean skill behind white space parses to itself. */
  lemma ParseOne(p: string, x: string)
    requires AllSpace(p) && ',' !in p
    requires CleanSkill(x)
    ensures DropEmpty(TrimAll(Split(p + x, ','))) == [x]
  {
    assert Trim(p + x) == x by {
      TrimSpacePrefix(p, x);
      TrimTrimmed(x);
    }
    assert Split(p + x, ',') == [p + x] by {
      assert ',' !in p + x;
      SplitWithoutSeparator(p + x, ',');
    }
    assert DropEmpty(TrimAll([p + x])) == [x] by {
      CleanCons(p + x, []);
    }
  }

  /** The first clean skill behind white space comes off the front of the
      parse. */
  lemma ParseStep(p: string, xs: seq<string>)
    requires AllSpace(p) && ',' !in p
    requires |xs| > 1 && CleanSkill(xs[0])
    ensures DropEmpty(TrimAll(Split(p + Join(xs, ", "), ','))) ==
      [xs[0]] + DropEmpty(TrimAll(Split(" " + Join(xs[1..], ", "), ',')))
  {
    var x := xs[0];
    var tailText := " " + Join(xs[1..], ", ");
    assert Trim(p + x) == x by {
      TrimSpacePrefix(p, x);
      TrimTrimmed(x);
    }
    assert Split(p + Join(xs, ", "), ',') == [p + x] + Split(tailText, ',') by {
      JoinCons(p, xs);
      assert ',' !in p + x;
      SplitAfterSeparator(p + x, ',', tailText);
    }
    assert DropEmpty(TrimAll([p + x] + Split(tailText, ','))) == [x] + DropEmpty(TrimAll(Split(tailText, ','))) by {
      CleanCons(p + x, Split(tailText, ','));
    }
  }

  /** Rendering a list of clean skills and parsing the text gives the list
      back. */
  lemma {:induction false} ParseRenderRoundTrip(xs: seq<string>)
    requires AllClean(xs)
    ensures ParseSkills(RenderSkills(Some(xs))) == xs
  {
    if |xs| == 0 {
      assert Split("", ',') == [""];
      assert TrimAll([""]) == [""];
    } else {
      ParseAfterSpace("", xs);
      assert "" + Join(xs, ", ") == Join(xs, ", ");
    }
  }

  /** What the parser produced survives a render and a second parse. */
  lemma ParseStable(text: string)
    ensures ParseSkills(RenderSkills(Some(ParseSkills(text)))) == ParseSkills(text)
  {
    ParseRenderRoundTrip(ParseSkills(text));
  }

  // ---------- profile form ----------

  /** The two text fields of the profile form. */
  datatype ProfileForm = ProfileForm(bio: string, skills: string)

  /** `fetchProfile`: fills the form from the fetched profile. */
  function LoadProfileForm(p: PublicUser): (f: ProfileForm)
    ensures f.bio == p.bio.GetOr("")
    ensures p.skills.Some? && AllClean(p.skills.value) ==> ParseSkills(f.skills) == p.skills.value
    ensures p.skills.None? ==> f.skills == ""
  {
    assert p.skills.Some? && AllClean(p.skills.value) ==> ParseSkills(RenderSkills(p.skills)) == p.skills.value by {
      if p.skills.Some? && AllClean(p.skills.value) { ParseRenderRoundTrip(p.skills.value); }
    }
    ProfileForm(if Truthy(p.bio) then p.bio.value else "", RenderSkills(p.skills))
  }

  /** `handleProfileUpdate`: the body sent for the form, which never carries
      a name and always carries bio and skills. */
  function ProfileRequest(f: ProfileForm): (b: ProfileBody)
    ensures b.name.None?
    ensures b.bio == Some(f.bio)
    ensures b.skills.Some? && AllClean(b.skills.value)
  {
    ProfileBody(None, Some(f.bio), Some(ParseSkills(f.skills)))
  }

  /** Saving the profile form without editing it keeps the name, and keeps
      bio and clean skills, though it stores a missing bio or skills list as
      an empty one. */
  lemma SaveUnchangedProfile(users: Users, uid: UserId)
    requires uid in users
    requires users[uid].skills.Some? ==> AllClean(users[uid].skills.value)
    ensures var form := LoadProfileForm(GetProfile(users, uid).value);
      var u := UpdateProfile(users, uid, ProfileRequest(form)).users[uid];
      && u.name == users[uid].name
      && u.bio == Some(users[uid].bio.GetOr(""))
      && u.skills == Some(users[uid].skills.GetOr([]))
  {
    var form := LoadProfileForm(GetProfile(users, uid).value);
    if users[uid].skills.None? {
      ParseRenderRoundTrip([]);
    }
  }

  // ---------- stats ----------

  /** The three counters above the task list. */
  datatype Stats = Stats(total: nat, pending: nat, completed: nat)

  /** The statuses of the tasks, in list order. */
  function Statuses(ts: seq<Task>): seq<Option<string>> {
    seq(|ts|, k requires 0 <= k < |ts| => ts[k].status)
  }

  /** `tasks.filter((t) => t.status === s).length`: the number of tasks whose
      status is `s`. */
  function CountStatus(ts: seq<Task>, s: string): (n: nat)
    ensures n <= |ts|
    ensures n == multiset(Statuses(ts))[Some(s)]
  {
    if |ts| == 0 then 0
    else
      var rest := CountStatus(ts[1..], s);
      assert Statuses(ts) == [ts[0].status] + Statuses(ts[1..]);
      (if ts[0].status == Some(s) then 1 else 0) + rest
  }

  /** Every task has one of the two statuses the form offers. */
  predicate KnownStatuses(ts: seq<Task>) {
    forall k :: 0 <= k < |ts| ==> ts[k].status == Some("pending") || ts[k].status == Some("completed")
  }

  /** No task is counted twice, and the counters cover every task exactly
      when every status is "pending" or "completed". */
  lemma {:induction false} CountersBound(ts: seq<Task>)
    ensures CountStatus(ts, "pending") + CountStatus(ts, "completed") <= |ts|
    ensures CountStatus(ts, "pending") + CountStatus(ts, "completed") == |ts| <==> KnownStatuses(ts)
  {
    if |ts| > 0 {
      CountersBound(ts[1..]);
      if KnownStatuses(ts[1..]) && (ts[0].status == Some("pending") || ts[0].status == Some("completed")) {
        assert KnownStatuses(ts) by {
          forall k | 0 <= k < |ts|
            ensures ts[k].status == Some("pending") || ts[k].status == Some("completed")
          {
            if k > 0 { assert ts[k] == ts[1..][k - 1]; }
          }
        }
      }
      if KnownStatuses(ts) {
        assert KnownStatuses(ts[1..]) by {
          forall k | 0 <= k < |ts[1..]|
            ensures ts[1..][k].status == Some("pending") || ts[1..][k].status == Some("completed")
          {
            assert ts[1..][k] == ts[k + 1];
          }
        }
      }
    }
  }

  /** The `stats` memo. */
  function ComputeStats(ts: seq<Task>): (st: Stats)
    ensures st.total == |ts|
    ensures st.pending == multiset(Statuses(ts))[Some("pending")]
    ensures st.completed == multiset(Statuses(ts))[Some("completed")]
    ensures st.pending + st.completed <= st.total
    ensures st.pending + st.completed == st.total <==> KnownStatuses(ts)
  {
    CountersBound(ts);
    Stats(|ts|, CountStatus(ts, "pending"), CountStatus(ts, "completed"))
  }

  // ---------- listing query parameters ----------

  /** The query parameters of `GET /tasks`. */
  datatype Params = Params(search: Option<string>, status: Option<string>)

  /** `fetchTasks`: the trimmed search when it is not blank, the status
      filter when one is selected. */
  function BuildParams(debouncedSearch: string, statusFilter: string): (p: Params)
    ensures p.search.Some? <==> !AllSpace(debouncedSearch)
    ensures p.search.Some? ==> p.search.value == Trim(debouncedSearch) && p.search.value != ""
    ensures p.status.Some? <==> statusFilter != ""
    ensures p.status.Some? ==> p.status.value == statusFilter
  {
    var s := Trim(debouncedSearch);
    Params(if s != "" then Some(s) else None, if statusFilter != "" then Some(statusFilter) else None)
  }

  /** What the dashboard lists for a search box and a status filter: the
      caller's tasks whose title contains the trimmed search (any task, when
      the box is blank) and whose status is the selected one (any status,
      when none is selected). */
  lemma DashboardListing(store: Store, uid: UserId, search: string, statusFilter: string)
    requires NoRegexMeta(Trim(search))
    ensures var p := BuildParams(search, statusFilter);
      forall t :: t in GetTasks(store, uid, p.search, p.status) <==>
        && t in store
        && t.userId == uid
        && (statusFilter == "" || t.status == Some(statusFilter))
        && (AllSpace(search) || ContainsIgnoringCase(t.title, Trim(search)))
  {
  }

  // ---------- status toggle ----------

  /** `toggleStatus`: "completed" becomes "pending"; any other status,
      including none, becomes "completed". */
  function ToggleStatus(status: Option<string>): (r: string)
    ensures r == "pending" <==> status == Some("completed")
    ensures r == "pending" || r == "completed"
  {
    if status == Some("completed") then "pending" else "completed"
  }

  /** Toggling a known status twice restores it. */
  lemma ToggleTwice(s: string)
    requires s == "pending" || s == "completed"
    ensures ToggleStatus(Some(ToggleStatus(Some(s)))) == s
  {
  }

  /** `{ ...task, status: newStatus }`: every field of the task as fetched
      (a missing description stays missing), with the status replaced. */
  function TogglePayload(t: Task): (p: Patch)
    ensures ApplyPatch(p, t) == t.(status := Some(ToggleStatus(t.status)))
    ensures p.id == Some(t.id) && p.userId == Some(t.userId)
  {
    Patch(Some(t.id), Some(t.userId), Some(t.title), t.description,
      Some(ToggleStatus(t.status)), Some(t.createdAt))
  }

  /** Toggling a task the caller owns changes that task's status and nothing
      else in the store. */
  lemma ToggleUpdatesOnlyStatus(store: Store, uid: UserId, t: Task)
    requires ValidStore(store)
    requires t in store && t.userId == uid
    ensures var s := UpdateTask(store, uid, t.id, TogglePayload(t));
      && |s.store| == |store|
      && forall j :: 0 <= j < |store| ==>
           s.store[j] == if store[j].id == t.id then t.(status := Some(ToggleStatus(t.status))) else store[j]
  {
    var s := UpdateTask(store, uid, t.id, TogglePayload(t));
    assert Owns(store, uid, t.id);
    var i :| 0 <= i < |store| && store[i].id == t.id && store[i].userId == uid
      && s.store == store[i := ApplyPatch(TogglePayload(t), store[i])];
    var k :| 0 <= k < |store| && store[k] == t;
    assert k == i;
  }

  // ---------- task form ----------

  /** The three controlled fields of the task form. */
  datatype TaskForm = TaskForm(title: string, description: string, status: string)

  /** The form after a submit or a cancelled edit. */
  const BlankForm := TaskForm("", "", "pending")

  /** A request the form sends. */
  datatype Request = CreateRequest(body: NewTask) | UpdateRequest(id: TaskId, patch: Patch)

  /** `handleTaskSubmit`: nothing is sent while the title is blank; otherwise
      the form is posted as a new task, or put over the task being edited. */
  function SubmitTask(form: TaskForm, editId: Option<TaskId>): (r: Option<Request>)
    ensures r.None? <==> AllSpace(form.title)
    ensures r.Some? && editId.None? ==>
      r.value == CreateRequest(NewTask(Some(form.title), Some(form.description), Some(form.status)))
    ensures r.Some? && editId.Some? ==>
      r.value == UpdateRequest(editId.value,
        EmptyPatch.(title := Some(form.title), description := Some(form.description), status := Some(form.status)))
  {
    if Trim(form.title) == "" then None
    else match editId
      case None => Some(CreateRequest(NewTask(Some(form.title), Some(form.description), Some(form.status))))
      case Some(id) =>
        Some(UpdateRequest(id, Patch(None, None, Some(form.title), Some(form.description), Some(form.status), None)))
  }

  /** A create request the form lets through is never refused by the
      server's title check. */
  lemma SubmittedCreateIsAccepted(form: TaskForm, store: Store, uid: UserId, freshId: TaskId, now: int)
    requires SubmitTask(form, None).Some?
    ensures var req := SubmitTask(form, None).value;
      CreateTask(store, uid, req.body, freshId, now).response.Created?
  {
  }

  /** `handleEdit`: the form shows the task's title, its description or "",
      and its status or "pending" when it has none. */
  function EditForm(t: Task): (f: TaskForm)
    ensures f.title == t.title
    ensures f.description == t.description.GetOr("")
    ensures Truthy(t.status) ==> f.status == t.status.value
    ensures !Truthy(t.status) ==> f.status == "pending"
  {
    TaskForm(t.title,
      if Truthy(t.description) then t.description.value else "",
      if Truthy(t.status) then t.status.value else "pending")
  }

  /** Opening a task for editing and saving it unchanged leaves the store
      as it was, when the task already has a description and a status. */
  lemma EditAndSaveUnchanged(store: Store, uid: UserId, t: Task)
    requires ValidStore(store)
    requires t in store && t.userId == uid
    requires t.description.Some? && Truthy(t.status) && !AllSpace(t.title)
    ensures var req := SubmitTask(EditForm(t), Some(t.id));
      && req.Some? && req.value.UpdateRequest?
      && UpdateTask(store, uid, t.id, req.value.patch).store == store
  {
    var f := EditForm(t);
    assert Some(f.description) == t.description && Some(f.status) == t.status;
    var p := SubmitTask(f, Some(t.id)).value.patch;
    assert p == EmptyPatch.(title := Some(t.title), description := t.description, status := t.status);
    var s := UpdateTask(store, uid, t.id, p);
    assert Owns(store, uid, t.id);
    var i :| 0 <= i < |store| && store[i].id == t.id && store[i].userId == uid
      && s.store == store[i := ApplyPatch(p, store[i])];
    var k :| 0 <= k < |store| && store[k] == t;
    assert k == i;
    assert ApplyPatch(p, t) == t;
  }
}
