/** The authentication context (contexts/AuthContext.tsx): a token and a
    student id held in memory, changed only by `login`, `logout` and the
    start-up restore from device storage. */
module Auth {
  import opened Common

  datatype AuthState = AuthState(token: Option<string>, studentId: Option<int>)

  /** What device storage holds under `userToken` and `userData`. */
  datatype Storage = Storage(userToken: Option<string>, userData: Option<string>)

  /** The in-memory context together with the device storage it may read. */
  datatype Device = Device(auth: AuthState, storage: Storage)

  /** The outcome of `JSON.parse` on the stored user data: it throws, or it
      yields an object whose `id` may be missing. */
  datatype ParsedUser = ParseError | ParsedUser(id: Option<int>)

  const SignedOut := AuthState(None, None)

  /** `isAuthenticated = !!token`. */
  predicate IsAuthenticated(a: AuthState) {
    TruthyString(a.token)
  }

  /** `login(token, studentId)`. */
  function Login(d: Device, token: string, studentId: int): (r: Device)
    ensures r.auth.token == Some(token) && r.auth.studentId == Some(studentId)
    ensures IsAuthenticated(r.auth) <==> token != ""
    ensures r.storage == d.storage
  {
    d.(auth := AuthState(Some(token), Some(studentId)))
  }

  /** `logout()`. */
  function Logout(d: Device): (r: Device)
    ensures r.auth.token.None? && r.auth.studentId.None?
    ensures !IsAuthenticated(r.auth)
    ensures r.storage == d.storage
  {
    d.(auth := SignedOut)
  }

  /** `autoLogin()` at start-up. `readFails` stands for a failure of the
      storage module or of `getItem`; `parsed` is what `JSON.parse` makes of
      the stored user data. */
  function Restore(d: Device, readFails: bool, parsed: ParsedUser): (r: Device)
    ensures r.storage == d.storage
    ensures r.auth.token.Some? <==>
              !readFails && TruthyString(d.storage.userToken)
              && TruthyString(d.storage.userData) && parsed.ParsedUser?
    ensures r.auth.token.Some? ==>
              r.auth.token == d.storage.userToken && r.auth.studentId == parsed.id
    ensures r.auth.token.None? ==> r.auth == SignedOut
  {
    if readFails then d.(auth := SignedOut)
    else if TruthyString(d.storage.userToken) && TruthyString(d.storage.userData) then
      match parsed
      case ParseError => d.(auth := SignedOut)
      case ParsedUser(id) => d.(auth := AuthState(d.storage.userToken, id))
    else d.(auth := SignedOut)
  }

  /** A restored session is an authenticated one. */
  lemma RestoredIsAuthenticated(d: Device, readFails: bool, parsed: ParsedUser)
    ensures IsAuthenticated(Restore(d, readFails, parsed).auth) <==>
              !readFails && TruthyString(d.storage.userToken)
              && TruthyString(d.storage.userData) && parsed.ParsedUser?
  {
  }
}
