/** The session guard placed in front of every notes route. */
module Auth {
  import opened NoteModel

  const LoginMessage := "Please log in to access this resource"

  /** What the guard did: handed the request on (`next()`), wrote a response, or both. */
  datatype GuardEffect = GuardEffect(nextCalled: bool, written: Option<Response>)

  /** The rejection the guard writes. */
  function Unauthorized(): (r: Response)
    ensures r.status == 401 && !r.body.success && r.body.message == Some(LoginMessage)
  {
    Failure(401, LoginMessage)
  }

  /** `isAuthenticated`: a truthy session user id goes through, anything else gets a 401. */
  function IsAuthenticated(sessionUserId: Option<UserId>): (e: GuardEffect)
    ensures e.nextCalled <==> Given(sessionUserId)
    ensures e.nextCalled != e.written.Some?
    ensures !e.nextCalled ==> e.written == Some(Unauthorized())
  {
    if Given(sessionUserId) then GuardEffect(true, None) else GuardEffect(false, Some(Unauthorized()))
  }
}
