/**
 Who the caller is and what the caller's role lets them do.  Every handler
 is preceded by `login_required`; the role checks are `has_permission` with
 a list of role names, or a direct comparison of the caller's role name.
 `Allowed` is the permission table the role-gated handlers follow; the
 handler modules prove that their inline checks agree with it.
 */
module Policy {
  import opened Wrappers
  import opened Schema

  const Administrator: string := "Администратор"
  const Moderator: string := "Модератор"
  /** The ordinary reader role. */
  const Reader: string := "Пользователь"

  /** The session's identity; the route layer supplies it. */
  datatype Identity = Anonymous | Session(userId: Id)

  /** `current_user.is_authenticated`: the session names a user row that exists. */
  predicate Authenticated(s: Store, who: Identity)
  {
    who.Session? && who.userId in s.users
  }

  /** `current_user.role.name`, when the caller is authenticated. */
  function RoleName(s: Store, who: Identity): (r: Option<string>)
    ensures r.Some? ==> Authenticated(s, who)
    ensures Valid(s) && Authenticated(s, who) ==> r == Some(s.roles[s.users[who.userId].roleId].name)
  {
    if Authenticated(s, who) && s.users[who.userId].roleId in s.roles then
      Some(s.roles[s.users[who.userId].roleId].name)
    else None
  }

  /** `has_permission(required_roles)`. */
  function HasPermission(s: Store, who: Identity, required: set<string>): (r: bool)
    ensures r ==> Authenticated(s, who)
    ensures Valid(s) && Authenticated(s, who) ==> (r <==> s.roles[s.users[who.userId].roleId].name in required)
  {
    match RoleName(s, who)
    case None => false
    case Some(name) => name in required
  }

  /** Actions a role may be granted. */
  datatype Action =
    | AddBook
    | EditBook
    | DeleteBook
    | AddReview
    | DeleteReview
    | ModerateReviews
    | ManageCollections

  /** The permission table, one row per role; unknown roles get nothing. */
  function Allowed(role: string, a: Action): bool
  {
    if role == Administrator then a in {AddBook, EditBook, DeleteBook, AddReview, DeleteReview, ModerateReviews}
    else if role == Moderator then a in {EditBook, AddReview, DeleteReview, ModerateReviews}
    else if role == Reader then a in {AddReview, ManageCollections}
    else false
  }

  /** The caller's role name in a valid store. */
  function CallerRole(s: Store, who: Identity): (r: string)
    requires Valid(s) && Authenticated(s, who)
    ensures RoleName(s, who) == Some(r)
  {
    s.roles[s.users[who.userId].roleId].name
  }
}
