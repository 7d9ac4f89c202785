/** The access guard of lib/auth.ts. The ambient session lookup becomes a
    parameter: the guard is a function of the session's user, or `None` when
    nobody is logged in. */
module Auth {
  import opened Wrappers

  datatype Role = USER | ADMIN

  /** The fields of the session user that the back end reads. */
  datatype SessionUser = SessionUser(id: string, name: Option<string>, email: Option<string>, role: Role)

  const LoginRequired: string := "로그인이 필요합니다"
  const AdminRequired: string := "관리자 권한이 필요합니다"

  /** `requireAdmin`: the login check comes first, then the role check; an
      administrator is handed back as is. The error is the thrown message. */
  function RequireAdmin(session: Option<SessionUser>): (r: Result<SessionUser, string>)
    ensures session == None ==> r == Err(LoginRequired)
    ensures session.Some? && session.value.role != ADMIN ==> r == Err(AdminRequired)
    ensures r.Ok? <==> session.Some? && session.value.role == ADMIN
    ensures r.Ok? ==> r.value == session.value
  {
    match session
    case None => Err(LoginRequired)
    case Some(user) => if user.role != ADMIN then Err(AdminRequired) else Ok(user)
  }

  /** `requireAuth`: any logged-in user passes, whatever the role. */
  function RequireAuth(session: Option<SessionUser>): (r: Result<SessionUser, string>)
    ensures r.Ok? <==> session.Some?
    ensures r.Ok? ==> r.value == session.value
    ensures r.Err? ==> r.error == LoginRequired
  {
    match session
    case None => Err(LoginRequired)
    case Some(user) => Ok(user)
  }

  /** The admin guard is the login guard strengthened by the role check: it
      never admits a session the login guard refuses, it admits exactly the
      administrators among the sessions the login guard admits, and both guards
      refuse an absent session with the same message. */
  lemma AdminGuardRefinesAuthGuard(session: Option<SessionUser>)
    ensures RequireAdmin(session).Ok? ==> RequireAuth(session) == RequireAdmin(session)
    ensures RequireAuth(session).Ok? ==>
      (RequireAdmin(session).Ok? <==> RequireAuth(session).value.role == ADMIN)
    ensures RequireAuth(session).Err? ==> RequireAdmin(session) == RequireAuth(session)
  {
  }
}
