/** The profile controller: read the caller's user record without its
    password, and apply a partial update of name, bio and skills. */
module Profile {
  import opened Wrappers
  import opened Ids
  import opened Text

  /** A user document. `bio` and `skills` are `None` on a record that never
      had them set. */
  datatype User = User(
    id: UserId,
    name: string,
    email: string,
    password: string,
    bio: Option<string>,
    skills: Option<seq<string>>)

  /** A user document as it leaves the server: there is no password field. */
  datatype PublicUser = PublicUser(
    id: UserId,
    name: string,
    email: string,
    bio: Option<string>,
    skills: Option<seq<string>>)

  /** The user collection, keyed by `_id`. */
  type Users = map<UserId, User>

  /** `.select("-password")`: every field except the password. */
  function WithoutPassword(u: User): (p: PublicUser)
    ensures p.id == u.id && p.name == u.name && p.email == u.email
    ensures p.bio == u.bio && p.skills == u.skills
  {
    PublicUser(u.id, u.name, u.email, u.bio, u.skills)
  }

  /** Dropping the password loses nothing else: the record is recovered
      from the public view and the password. */
  lemma WithoutPasswordLosesOnlyPassword(u: User, v: User)
    requires WithoutPassword(u) == WithoutPassword(v)
    ensures u == v <==> u.password == v.password
  {
  }

  /** `getProfile`: the caller's record without the password; `None` (a
      JSON `null` with status 200) when no user has that identifier. */
  function GetProfile(users: Users, uid: UserId): (r: Option<PublicUser>)
    ensures r.Some? <==> uid in users
    ensures r.Some? ==> r.value == WithoutPassword(users[uid])
  {
    if uid in users then Some(WithoutPassword(users[uid])) else None
  }

  /** The fields `updateProfile` reads from a request body. */
  datatype ProfileBody = ProfileBody(name: Option<string>, bio: Option<string>, skills: Option<seq<string>>)

  const EmptyBody := ProfileBody(None, None, None)

  /** The update document: `name` only when truthy, `bio` and `skills`
      whenever present, so an empty bio or skills list clears the field. */
  function ApplyProfile(u: User, body: ProfileBody): (v: User)
    ensures Truthy(body.name) ==> v.name == body.name.value
    ensures !Truthy(body.name) ==> v.name == u.name
    ensures body.bio.Some? ==> v.bio == body.bio
    ensures body.bio.None? ==> v.bio == u.bio
    ensures body.skills.Some? ==> v.skills == body.skills
    ensures body.skills.None? ==> v.skills == u.skills
    ensures v.id == u.id && v.email == u.email && v.password == u.password
  {
    u.(name := if Truthy(body.name) then body.name.value else u.name,
       bio := if body.bio.Some? then body.bio else u.bio,
       skills := if body.skills.Some? then body.skills else u.skills)
  }

  /** The user collection after a request, and the user sent back. */
  datatype ProfileStep = ProfileStep(users: Users, user: Option<PublicUser>)

  /** `updateProfile`: `findByIdAndUpdate` on the caller's record, which
      returns the record as updated, without the password, or `None` (a
      JSON `null`) when no user has that identifier. */
  function UpdateProfile(users: Users, uid: UserId, body: ProfileBody): (r: ProfileStep)
    ensures uid !in users ==> r == ProfileStep(users, None)
    ensures r.users.Keys == users.Keys
    ensures forall k :: k in users && k != uid ==> r.users[k] == users[k]
    ensures uid in users ==>
      && r.users[uid] == ApplyProfile(users[uid], body)
      && r.user == Some(WithoutPassword(r.users[uid]))
  {
    if uid !in users then ProfileStep(users, None)
    else
      var updated := ApplyProfile(users[uid], body);
      ProfileStep(users[uid := updated], Some(WithoutPassword(updated)))
  }

  /** No request body can change a user's identifier, email or password. */
  lemma UpdateProfileKeepsCredentials(users: Users, uid: UserId, body: ProfileBody)
    requires uid in users
    ensures var u := UpdateProfile(users, uid, body).users[uid];
      u.id == users[uid].id && u.email == users[uid].email && u.password == users[uid].password
  {
  }

  /** An empty body leaves the collection exactly as it was. */
  lemma UpdateProfileEmptyBody(users: Users, uid: UserId)
    ensures UpdateProfile(users, uid, EmptyBody).users == users
  {
  }

  /** Sending the same body twice has the effect of sending it once. */
  lemma UpdateProfileIdempotent(users: Users, uid: UserId, body: ProfileBody)
    ensures var once := UpdateProfile(users, uid, body);
      UpdateProfile(once.users, uid, body) == once
  {
  }

  /** An explicitly empty bio clears a stored bio; an omitted bio keeps it. */
  lemma EmptyBioClears(users: Users, uid: UserId)
    requires uid in users
    ensures UpdateProfile(users, uid, EmptyBody.(bio := Some(""))).users[uid].bio == Some("")
    ensures UpdateProfile(users, uid, EmptyBody).users[uid].bio == users[uid].bio
  {
  }
}
