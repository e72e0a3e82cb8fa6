# Task dashboard: owner-scoped task store and profile updates

This project models the logic of a small task-management web application in Dafny.
Users keep a profile (name, bio, skills) and a list of tasks. Each task has a title,
an optional description, a status and a creation time.

- **Tasks** (`tasks.dfy`) models the task controller. The task collection is an
  immutable `seq<Task>`. `CreateTask`, `UpdateTask` and `DeleteTask` each return a
  `Step`: the next store plus the response the controller sends. `GetTasks` returns
  the listing. Listing is always limited to the caller's tasks. It narrows by status
  and by a case-insensitive title search only when those parameters are non-empty, and
  the result is newest first. Update and delete first look for a task with that
  identifier owned by the caller. When there is none they answer 404 and leave the
  store alone.
- **Profile** (`profile.dfy`) models the profile controller. The user collection is
  a `map<UserId, User>`. A user leaves the server as a `PublicUser`, a type with no
  password field. `UpdateProfile` applies `name` only when it is non-empty. It applies
  `bio` and `skills` whenever they are present, so an empty value clears them.
- **Dashboard** (`dashboard.dfy`) models the pure helpers of the dashboard page:
  - the comma-separated skills field, parsed by `ParseSkills` and rendered by
    `RenderSkills`;
  - the task counters;
  - the query parameters for the listing;
  - the status toggle and the update body it sends;
  - the task form's blank-title guard and its edit defaults.
- **Text** (`text.dfy`) holds the JavaScript string operations these use: `trim`
  (the exact WhiteSpace and LineTerminator set), `split` on one character, `join`,
  ASCII lower-casing and substring search.
- **Wrappers** (`wrappers.dfy`) and **Ids** (`ids.dfy`) hold `Option` and the
  identifier types. An absent JSON field is `None`.

The database, the clock and authentication are outside the model:
- the caller's identifier `uid` is a parameter;
- a new task's identifier (`freshId`) and creation time (`now`) are parameters;
- `ValidStore` states the database's guarantee that task identifiers are unique. The
  lemmas that rely on it require it; the operations do not.

In these places the model follows the controller code as written:
- Statuses are plain strings. Create and update accept any value, and no default
  status is assumed, because the default lives in a schema that is not part of this
  model.
- `UpdateTask` writes every field present in the body, `_id` and `userId` included.
  `UpdateCanReassignOwner` shows that an update can move a task into another user's
  listing.
- `GetProfile` and `UpdateProfile` return `None` (JSON `null` with status 200) for an
  unknown user rather than a not-found error.
- On the server a whitespace-only search is a real filter. Only the dashboard trims
  it away, so a blank search box means "no filter" (`DashboardListing`).

## Model

| member | source | states |
|---|---|---|
| Text.Trim | frontend/src/pages/Dashboard.jsx:97 | the result is a piece of the input with only white space in front of it and behind it; it neither starts nor ends with white space, holds only characters of the input, and is empty exactly when the input is all white space |
| Text.TrimIsStripping | frontend/src/pages/Dashboard.jsx:97 | a string is the trimming of the input exactly when it neither starts nor ends with white space and is a piece of the input with only white space around it, so trimming is determined uniquely |
| Text.TrimTrimmed | frontend/src/pages/Dashboard.jsx:97 | a string without white space at either end is its own trimming |
| Text.TrimSpacePrefix | frontend/src/pages/Dashboard.jsx:97 | white space in front of a string never changes its trimming |
| Text.Join | frontend/src/pages/Dashboard.jsx:49 | joining no parts gives "" and joining one part gives that part |
| Text.JoinKeepsParts | frontend/src/pages/Dashboard.jsx:49 | every part occurs somewhere in the joined string |
| Text.Split | frontend/src/pages/Dashboard.jsx:96 | there is at least one piece, no piece contains the separator, and joining the pieces with the separator gives back the input |
| Text.SplitAfterSeparator | frontend/src/pages/Dashboard.jsx:96 | a separator-free prefix followed by the separator splits off as the first piece |
| Text.Contains | backend/controllers/taskController.js:32 | substring search is true exactly when the needle occurs at some position of the haystack |
| Text.Lower | backend/controllers/taskController.js:32 | lower-casing keeps the length and lower-cases each ASCII letter in place, leaving every other character alone |
| Text.LowerIdempotent | backend/controllers/taskController.js:32 | lower-casing twice is lower-casing once |
| Text.ContainsIgnoringCase | backend/controllers/taskController.js:32 | the case-insensitive search is true exactly when some piece of the title spells the search once both are lower-cased |
| Text.SearchIgnoresCase | backend/controllers/taskController.js:32 | the case-insensitive search gives the same answer when the title or the search is lower-cased first |
| Tasks.CreateTask | backend/controllers/taskController.js:4-17 | a missing or empty title gives 400 "Title is required" with the store unchanged; otherwise exactly one task is appended, with the caller as owner and the title, description and status exactly as sent |
| Tasks.CreatePreservesValid | backend/controllers/taskController.js:10-15 | with an unused identifier, creation keeps identifiers unique and keeps every existing task |
| Tasks.CreatedTaskVisibleOnlyToOwner | backend/controllers/taskController.js:10-15 | a created task is listed for its creator and never listed for any other user |
| Tasks.BuildQuery | backend/controllers/taskController.js:26-34 | the query always names the caller as owner; it holds a status only when the status is non-empty and a title pattern only when the search is non-empty, and each holds the value sent |
| Tasks.QueryMatchesRequest | backend/controllers/taskController.js:26-34 | a task satisfies the built query exactly when it belongs to the caller, has the requested status when a non-empty one is sent, and has a title containing the search, ignoring case, when a non-empty one is sent |
| Tasks.Select | backend/controllers/taskController.js:36 | a task is selected exactly when it is in the store and satisfies the query, and it is selected as many times as it occurs in the store |
| Tasks.SortNewestFirst | backend/controllers/taskController.js:36 | the result is a permutation of the input ordered by creation time, newest first |
| Tasks.GetTasks | backend/controllers/taskController.js:24-36 | every listed task belongs to the caller, has the requested status when one is given, and has a title containing the search case-insensitively when one is given; every such task of the store is listed, with its multiplicity; the list is newest first |
| Tasks.GetTasksResponse | backend/controllers/taskController.js:36-37 | listing answers 200, leaves the store unchanged, and sends exactly the filtered, newest-first list of the caller's tasks |
| Tasks.FindOwned | backend/controllers/taskController.js:48 | the lookup finds nothing exactly when no task from the start position has that identifier and owner; what it finds has both |
| Tasks.FindOwnedIffOwns | backend/controllers/taskController.js:48-49 | the lookup from the start succeeds exactly when the caller owns a task with that identifier |
| Tasks.ApplyPatch | backend/controllers/taskController.js:51 | every field the body carries is overwritten with the value sent, identifier and owner included; every field it does not carry keeps its value; an empty body changes nothing |
| Tasks.UpdateTask | backend/controllers/taskController.js:44-52 | without a task of that identifier owned by the caller it answers 404 with the store unchanged; otherwise exactly one owned task with that identifier is replaced by its patched version, which is returned with 200 |
| Tasks.UpdateOnlyTarget | backend/controllers/taskController.js:48-52 | with unique identifiers, only the task with that identifier changes; each field the body carries is overwritten (identifier and owner included) and each absent field keeps its value |
| Tasks.UpdateWithEmptyBody | backend/controllers/taskController.js:51 | an update whose body carries no field leaves the store unchanged |
| Tasks.UpdatePreservesValid | backend/controllers/taskController.js:51 | an update that does not change the identifier keeps identifiers unique |
| Tasks.UpdatedTaskIsOnlyOneWithId | backend/controllers/taskController.js:51-52 | after an update that keeps the identifier, the returned task is in the store and is the only task with that identifier |
| Tasks.UpdateThenListByStatus | backend/controllers/taskController.js:30 | after setting a task's status to "completed", the task is listed under the "completed" filter and no task with its identifier is listed under "pending" |
| Tasks.UpdateCanReassignOwner | backend/controllers/taskController.js:51 | a body naming another owner moves the task into that user's listing and out of the caller's |
| Tasks.DeleteTask | backend/controllers/taskController.js:59-67 | without a task of that identifier owned by the caller it answers 404 with the store unchanged; otherwise exactly one owned task with that identifier is removed, the rest kept in order, and it answers 200 |
| Tasks.DeleteRemovesExactlyTarget | backend/controllers/taskController.js:63-66 | with unique identifiers, the remaining tasks are exactly the old tasks with a different identifier, and identifiers stay unique |
| Tasks.RemoveAtKeepsOthers | backend/controllers/taskController.js:66 | removing one position from a store with unique identifiers keeps them unique and keeps exactly the tasks with other identifiers |
| Tasks.DeleteTwiceNotFound | backend/controllers/taskController.js:63-64 | deleting the same task a second time answers 404 and changes nothing |
| Tasks.DeleteThenUpdateNotFound | backend/controllers/taskController.js:48-49 | after a task is deleted, updating it answers 404 and changes nothing |
| Profile.WithoutPassword | backend/controllers/profileController.js:5 | the public view carries every user field except the password, which it has no field for |
| Profile.WithoutPasswordLosesOnlyPassword | backend/controllers/profileController.js:5 | two users with the same public view are equal exactly when their passwords are equal |
| Profile.GetProfile | backend/controllers/profileController.js:3-6 | a profile is returned exactly when the user exists, and it is that user's record without the password |
| Profile.ApplyProfile | backend/controllers/profileController.js:18-22 | name changes only to a non-empty name; bio and skills change whenever present, even to empty; identifier, email and password never change |
| Profile.UpdateProfile | backend/controllers/profileController.js:12-28 | an unknown user changes nothing and gets null; otherwise only the caller's record changes, as the partial-update rule says, and the updated record comes back without the password |
| Profile.UpdateProfileKeepsCredentials | backend/controllers/profileController.js:16-22 | no body changes the caller's identifier, email or password |
| Profile.UpdateProfileEmptyBody | backend/controllers/profileController.js:16-24 | an empty body leaves the user collection identical |
| Profile.UpdateProfileIdempotent | backend/controllers/profileController.js:16-24 | sending the same body twice has the effect of sending it once |
| Profile.EmptyBioClears | backend/controllers/profileController.js:20 | a present empty bio clears the stored bio; an absent bio keeps it |
| Dashboard.RenderSkills | frontend/src/pages/Dashboard.jsx:49 | a missing or empty skills list shows as ""; a single skill shows as itself; every stored skill occurs in the text shown |
| Dashboard.TrimAll | frontend/src/pages/Dashboard.jsx:97 | each piece is replaced by its trimming, in order |
| Dashboard.DropEmpty | frontend/src/pages/Dashboard.jsx:98 | no empty string remains; a string is kept exactly when it was in the input and is not empty; every non-empty string is kept as many times as it occurs |
| Dashboard.DropEmptyAppend | frontend/src/pages/Dashboard.jsx:98 | filtering a concatenation is concatenating the filtered parts, so the kept strings stay in their input order |
| Dashboard.ParseSkills | frontend/src/pages/Dashboard.jsx:95-98 | every parsed skill is non-empty, has no leading or trailing white space, and contains no comma |
| Dashboard.ParseAfterSpace | frontend/src/pages/Dashboard.jsx:49 | clean skills joined with ", " behind leading white space parse back to the same list |
| Dashboard.ParseRenderRoundTrip | frontend/src/pages/Dashboard.jsx:95-98 | parsing the ", "-joined rendering of a list of clean skills gives back the same list |
| Dashboard.ParseStable | frontend/src/pages/Dashboard.jsx:95-98 | rendering a parsed list and parsing it again gives the same list |
| Dashboard.LoadProfileForm | frontend/src/pages/Dashboard.jsx:45-49 | the bio field shows the bio or ""; a stored list of clean skills parses back out of the skills field; no skills show as "" |
| Dashboard.ProfileRequest | frontend/src/pages/Dashboard.jsx:95-100 | the profile body never carries a name, always carries the bio as typed, and always carries a list of clean skills |
| Dashboard.SaveUnchangedProfile | frontend/src/pages/Dashboard.jsx:91-102 | saving the profile form unedited keeps the name, bio and clean skills; a missing bio or skills list is stored as an empty one |
| Dashboard.CountStatus | frontend/src/pages/Dashboard.jsx:85-86 | the count is the number of tasks whose status is the given one, which never exceeds the number of tasks |
| Dashboard.CountersBound | frontend/src/pages/Dashboard.jsx:83-88 | pending plus completed is at most the number of tasks, and equals it exactly when every status is "pending" or "completed" |
| Dashboard.ComputeStats | frontend/src/pages/Dashboard.jsx:83-88 | the total is the number of tasks; pending and completed are the numbers of tasks with those statuses; their sum is at most the total, and equals it exactly when every status is one of the two |
| Dashboard.BuildParams | frontend/src/pages/Dashboard.jsx:53-55 | the parameters hold `search` exactly when the search is not blank, and then its value is the trimmed, non-empty search; they hold `status` exactly when a filter is selected, with that value |
| Dashboard.DashboardListing | frontend/src/pages/Dashboard.jsx:52-57 | the dashboard lists exactly the caller's tasks whose title contains the trimmed search (all of them when the box is blank) and whose status is the selected one (any when none is selected) |
| Dashboard.ToggleStatus | frontend/src/pages/Dashboard.jsx:153 | the new status is "pending" exactly when the old one is "completed", and is always one of the two |
| Dashboard.ToggleTwice | frontend/src/pages/Dashboard.jsx:153 | toggling "pending" or "completed" twice gives back the original |
| Dashboard.TogglePayload | frontend/src/pages/Dashboard.jsx:154 | applying the toggle body to the task gives the task with only its status replaced by the toggled one |
| Dashboard.ToggleUpdatesOnlyStatus | frontend/src/pages/Dashboard.jsx:151-154 | toggling an owned task changes that task's status and nothing else in the store |
| Dashboard.SubmitTask | frontend/src/pages/Dashboard.jsx:108-120 | no request is sent exactly when the title is blank; otherwise the form is posted as a new task, or put over the edited task with exactly its title, description and status |
| Dashboard.SubmittedCreateIsAccepted | frontend/src/pages/Dashboard.jsx:112-118 | a create request that passes the form's blank-title guard always passes the server's title check |
| Dashboard.EditForm | frontend/src/pages/Dashboard.jsx:131-137 | the form holds the task's title, its description or "", and its status, or "pending" when the status is missing or empty |
| Dashboard.EditAndSaveUnchanged | frontend/src/pages/Dashboard.jsx:131-137 | opening a task that has a description and a status and saving it unedited leaves the store unchanged |

## Left out

- Database internals (`Task.find`, `findOne`, `findByIdAndUpdate`, `deleteOne`,
  `User.findById`) are replaced by the immutable stores. The `Task` and `User` schemas,
  their defaults and their timestamp handling are not part of this model. Identifier
  generation and the creation time are parameters.
- The `catch` branches that answer 500 are not modelled. These cover a database
  failure and a malformed identifier that cannot be cast.
- Tasks.UpdateTask: the database may refuse a body that changes `_id`. The model
  writes the new identifier as the controller asks. Fields outside the task schema,
  which Mongoose drops, are not representable in a `Patch`.
- Tasks.UpdateTask, Tasks.DeleteTask: the controller checks ownership on the first
  task with that identifier and owner, then writes by identifier alone. The model
  writes the task it found. The two coincide when identifiers are unique
  (`ValidStore`).
- Tasks.GetTasks: the search must not contain regular-expression metacharacters,
  because the controller passes it to `$regex` unescaped; full regular-expression
  semantics are not modelled. Case folding covers ASCII letters only.
- Tasks.SortNewestFirst: the database leaves the order of tasks with equal creation
  times unspecified. The model fixes one order and claims only the newest-first
  ordering and the permutation.
- Request values are modelled as strings, string lists or absent. Query values that
  Express parses as arrays or objects, and JSON `null` or non-string bodies, are not
  represented.
- Success messages in the JSON bodies ("Task created", "Task updated", …) are not
  modelled. Responses carry their status code, the task or list, and the error messages.
- HTTP and Express wiring (`backend/index.js`, `backend/routes/profileRoutes.js`) is
  not modelled.
- Authentication (the JWT middleware, hashing, `Login.jsx`, `Register.jsx`) is an
  external service; the caller's identifier is a parameter.
- `AuthContext.jsx` is `localStorage` persistence around React state.
- Rendering (`App.jsx`, `Navbar.jsx`, `TaskCard.jsx`, the JSX of `Dashboard.jsx`) is
  presentation only.
- Timing is not modelled: the search debounce, toast timeouts, `Promise.all` loading
  and React state updates. Each request is an atomic step, so the race between the
  ownership check and the write in update and delete is not represented.
