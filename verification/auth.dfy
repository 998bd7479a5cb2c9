/**
 The authentication routes of routes.py: the `login_required` /
 `admin_required` gate, `/login`, `/register`, `/logout` and the HTTP
 Basic entry `/home/admin/`.
 */
module Auth {
  import opened Common
  import opened Tables
  import opened Models
  import opened Forms
  import opened Web
  import opened Identity

  // ---------------------------------------------------------------- gate

  /** Flask-Login's `login_required`: strangers go to the login view, with
      the requested URL as `next`. None lets the request through. */
  function LoginRequired(cur: Option<Identity>, requested: string): (r: Option<Response>)
    ensures r.Some? <==> cur.None?
    ensures r.Some? ==> r.value == Redirect(LoginPage(Some(requested)), LoginPrompt)
  {
    if cur.None? then Some(Redirect(LoginPage(Some(requested)), LoginPrompt)) else None
  }

  /** `admin_required`: anything but an Admin goes home with "Access denied". */
  function AdminRequired(cur: Option<Identity>): (r: Option<Response>)
    ensures r.None? <==> IsAdmin(cur)
    ensures r.Some? ==> r.value == Redirect(Home, AccessDenied)
  {
    if !IsAdmin(cur) then Some(Redirect(Home, AccessDenied)) else None
  }

  /** The decorators as stacked on every admin route: `login_required`
      outside, `admin_required` inside. */
  function Gate(cur: Option<Identity>, requested: string): Option<Response>
  {
    match LoginRequired(cur, requested)
    case Some(resp) => Some(resp)
    case None => AdminRequired(cur)
  }

  /** An admin route: the gate runs first; only when it lets the request
      through does the handler's outcome count. */
  function Guarded(st: Store, session: Option<nat>, requested: string, handled: Outcome): (r: Outcome)
    ensures !IsAdmin(Current(st, session)) ==> r.store == st && r.session == session
    ensures IsAdmin(Current(st, session)) ==> r == handled
  {
    match Gate(Current(st, session), requested)
    case Some(resp) => Outcome(st, session, resp)
    case None => handled
  }

  /** Guard ordering: a stranger is sent to log in (never to the home
      page), a signed-in non-Admin is sent home with "Access denied", and
      only an Admin reaches the handler. */
  lemma GateOrdering(st: Store, session: Option<nat>, requested: string, handled: Outcome)
    ensures Current(st, session).None? ==>
      Guarded(st, session, requested, handled).response == Redirect(LoginPage(Some(requested)), LoginPrompt)
    ensures Current(st, session).Some? && !IsAdmin(Current(st, session)) ==>
      Guarded(st, session, requested, handled).response == Redirect(Home, AccessDenied)
    ensures Guarded(st, session, requested, handled) == handled || Guarded(st, session, requested, handled).store == st
  {
  }

  /** Without `login_required` on top, `admin_required` alone would send a
      stranger home instead of to the login view: the stacking matters. */
  lemma StackingMatters(requested: string)
    ensures AdminRequired(None) == Some(Redirect(Home, AccessDenied))
    ensures Gate(None, requested) == Some(Redirect(LoginPage(Some(requested)), LoginPrompt))
  {
  }

  // --------------------------------------------------------------- login

  /** The form fields `/login` reads straight from the request (not from
      the validated form), the request method, and the `next` argument. */
  datatype LoginRequest = LoginRequest(post: bool, email: Option<string>, password: Option<string>, next: Option<string>)

  /** The Admin a (email, password) pair logs in: the first admin row with
      that address, if its digest verifies the password. */
  function AdminMatch(st: Store, h: Hasher, email: string, password: string): (r: Option<nat>)
    ensures r.Some? ==> r.value in st.admins && st.admins[r.value].email == email
                        && CheckAdminPassword(h, st.admins[r.value], password)
    ensures forall k :: k in st.admins && st.admins[k].email == email && WellFormed(st) ==>
      (r.Some? <==> CheckAdminPassword(h, st.admins[k], password)) && (r.Some? ==> r == Some(k))
  {
    forall k | k in st.admins && st.admins[k].email == email && WellFormed(st)
      ensures FirstWhere(st.admins, (a: Admin) => a.email == email) == Some(k)
    {
      FirstIsOnly(st.admins, (a: Admin) => a.email, email, k);
    }
    match FirstWhere(st.admins, (a: Admin) => a.email == email)
    case Some(id) => if CheckAdminPassword(h, st.admins[id], password) then Some(id) else None
    case None => None
  }

  /** The same against the users table. */
  function UserMatch(st: Store, h: Hasher, email: string, password: string): (r: Option<nat>)
    ensures r.Some? ==> r.value in st.users && st.users[r.value].email == email
                        && CheckUserPassword(h, st.users[r.value], password)
    ensures forall k :: k in st.users && st.users[k].email == email && WellFormed(st) ==>
      (r.Some? <==> CheckUserPassword(h, st.users[k], password)) && (r.Some? ==> r == Some(k))
  {
    forall k | k in st.users && st.users[k].email == email && WellFormed(st)
      ensures FirstWhere(st.users, (u: User) => u.email == email) == Some(k)
    {
      FirstIsOnly(st.users, (u: User) => u.email, email, k);
    }
    match FirstWhere(st.users, (u: User) => u.email == email)
    case Some(id) => if CheckUserPassword(h, st.users[id], password) then Some(id) else None
    case None => None
  }

  /** Where a successful login goes: `next` when present and non-empty,
      else the account kind's landing page. */
  function NextOr(next: Option<string>, landing: Target): (t: Target)
    ensures Truthy(next) ==> t == Url(next.value)
    ensures !Truthy(next) ==> t == landing
  {
    if Truthy(next) then Url(next.value) else landing
  }

  /** `/login`. */
  function Login(st: Store, session: Option<nat>, req: LoginRequest, h: Hasher): (r: Outcome)
    ensures r.store == st
    ensures Current(st, session).Some? ==>
      r.session == session && r.response == Redirect(if IsAdmin(Current(st, session)) then AdminDashboard else Home, Quiet)
    ensures r.response.Redirect? && r.response.notice == LoginSuccess ==>
      && r.session.Some? && Attempt(st, session, req)
      && ((r.session.value in st.admins && st.admins[r.session.value].email == req.email.value
           && CheckAdminPassword(h, st.admins[r.session.value], req.password.value))
       || (r.session.value in st.users && st.users[r.session.value].email == req.email.value
           && CheckUserPassword(h, st.users[r.session.value], req.password.value)))
    ensures !(r.response.Redirect? && r.response.notice == LoginSuccess) ==> r.session == session
  {
    if Current(st, session).Some? then
      Outcome(st, session, Redirect(if IsAdmin(Current(st, session)) then AdminDashboard else Home, Quiet))
    else if !req.post then
      Outcome(st, session, Render(Quiet))
    else if !(Truthy(req.email) && Truthy(req.password)) then
      Outcome(st, session, Render(MissingCredentials))
    else
      var email, password := req.email.value, req.password.value;
      match AdminMatch(st, h, email, password)
      case Some(id) => Outcome(st, Some(id), Redirect(NextOr(req.next, AdminDashboard), LoginSuccess))
      case None =>
        match UserMatch(st, h, email, password)
        case Some(id) => Outcome(st, Some(id), Redirect(NextOr(req.next, Home), LoginSuccess))
        case None => Outcome(st, session, Render(LoginFailed))
  }

  /** An anonymous POST with both fields filled in. */
  predicate Attempt(st: Store, session: Option<nat>, req: LoginRequest)
  {
    Current(st, session).None? && req.post && Truthy(req.email) && Truthy(req.password)
  }

  /** Admin precedence: when the admin row for the address verifies, the
      visitor is logged in as that Admin, whatever the users table holds. */
  lemma LoginAdminFirst(st: Store, session: Option<nat>, req: LoginRequest, h: Hasher, users: map<nat, User>)
    requires Attempt(st, session, req) && Attempt(st.(users := users), session, req)
    requires AdminMatch(st, h, req.email.value, req.password.value).Some?
    ensures var r := Login(st.(users := users), session, req, h);
      && r.session == AdminMatch(st, h, req.email.value, req.password.value)
      && r.response == Redirect(NextOr(req.next, AdminDashboard), LoginSuccess)
  {
  }

  /** Fall-through: an admin address with a wrong password is tried
      against the users table. */
  lemma LoginFallsThroughToUsers(st: Store, session: Option<nat>, req: LoginRequest, h: Hasher)
    requires Attempt(st, session, req)
    requires AdminMatch(st, h, req.email.value, req.password.value).None?
    requires UserMatch(st, h, req.email.value, req.password.value).Some?
    ensures var r := Login(st, session, req, h);
      && r.session == UserMatch(st, h, req.email.value, req.password.value)
      && r.response == Redirect(NextOr(req.next, Home), LoginSuccess)
  {
  }

  /** A stored Admin whose digest checks the submitted password is signed
      in under its own id. */
  lemma AdminWithRightPasswordSignsIn(st: Store, session: Option<nat>, req: LoginRequest, h: Hasher, k: nat)
    requires WellFormed(st) && Attempt(st, session, req)
    requires k in st.admins && st.admins[k].email == req.email.value
    requires CheckAdminPassword(h, st.admins[k], req.password.value)
    ensures Login(st, session, req, h) == Outcome(st, Some(k), Redirect(NextOr(req.next, AdminDashboard), LoginSuccess))
  {
    assert AdminMatch(st, h, req.email.value, req.password.value) == Some(k);
  }

  /** A stored User whose digest checks the submitted password is signed in
      under its own id, unless an Admin row with that address verifies too. */
  lemma UserWithRightPasswordSignsIn(st: Store, session: Option<nat>, req: LoginRequest, h: Hasher, k: nat)
    requires WellFormed(st) && Attempt(st, session, req)
    requires k in st.users && st.users[k].email == req.email.value
    requires CheckUserPassword(h, st.users[k], req.password.value)
    requires forall a :: a in st.admins && st.admins[a].email == req.email.value ==>
               !CheckAdminPassword(h, st.admins[a], req.password.value)
    ensures Login(st, session, req, h) == Outcome(st, Some(k), Redirect(NextOr(req.next, Home), LoginSuccess))
  {
    assert AdminMatch(st, h, req.email.value, req.password.value).None?;
    assert UserMatch(st, h, req.email.value, req.password.value) == Some(k);
  }

  /** One generic failure: when nothing verifies, the response is the same
      whichever table (if any) knows the address, and the session stays. */
  lemma LoginFailureIsGeneric(st: Store, session: Option<nat>, req: LoginRequest, h: Hasher)
    requires Attempt(st, session, req)
    requires AdminMatch(st, h, req.email.value, req.password.value).None?
    requires UserMatch(st, h, req.email.value, req.password.value).None?
    ensures Login(st, session, req, h) == Outcome(st, session, Render(LoginFailed))
  {
  }

  /** An already signed-in visitor is redirected without any credential
      check: the submitted fields play no part. */
  lemma LoginWhenSignedIn(st: Store, session: Option<nat>, req1: LoginRequest, req2: LoginRequest, h: Hasher)
    requires Current(st, session).Some?
    ensures Login(st, session, req1, h) == Login(st, session, req2, h)
  {
  }

  /** `/login` reads the raw fields, not the validated LoginForm: an address
      `Email()` rejects still logs in when the account matches. */
  lemma LoginBypassesForm(st: Store, session: Option<nat>, req: LoginRequest, h: Hasher, isEmail: string -> bool)
    requires Attempt(st, session, req)
    requires !isEmail(req.email.value)
    requires UserMatch(st, h, req.email.value, req.password.value).Some?
    ensures !LoginFormValid(LoginData(req.email.value, req.password.value), isEmail)
    ensures Login(st, session, req, h).response.notice == LoginSuccess
  {
  }

  // ------------------------------------------------------------ register

  /** `/register`: signed-in visitors go home; a valid submission adds a
      User with the digest of the password and sends the visitor to log
      in. Registering an address already in the users table raises a
      database error the code does not handle; that path is excluded. */
  function Register(st: Store, session: Option<nat>, submitted: bool, d: RegistrationData,
                    isEmail: string -> bool, h: Hasher, salt: string): (r: Outcome)
    requires Current(st, session).None? && submitted && RegistrationFormValid(d, isEmail) ==>
             forall k :: k in st.users ==> st.users[k].email != d.email
    ensures r.session == session
    ensures r.store.(users := st.users) == st
    ensures r.store.users != st.users <==> Current(st, session).None? && submitted && RegistrationFormValid(d, isEmail)
    ensures r.store.users != st.users ==>
      && r.response == Redirect(LoginPage(None), Registered)
      && |r.store.users| == |st.users| + 1
      && (exists id: nat :: id !in st.users && id in r.store.users && r.store.users == st.users[id := r.store.users[id]]
            && r.store.users[id].name == d.name && r.store.users[id].email == d.email
            && (Sound(h) ==> CheckUserPassword(h, r.store.users[id], d.password)))
    ensures WellFormed(st) ==> WellFormed(r.store)
  {
    if Current(st, session).Some? then Outcome(st, session, Redirect(Home, Quiet))
    else if submitted && RegistrationFormValid(d, isEmail) then
      var user := SetUserPassword(h, salt, User(d.name, d.email, ""), d.password);
      var (users, id) := Insert(st.users, user);
      assert users == st.users[id := user];
      Outcome(st.(users := users), session, Redirect(LoginPage(None), Registered))
    else Outcome(st, session, Render(Quiet))
  }

  /** Registering and then logging in with the same address and password
      signs the visitor in under the new User's id, in any well-formed
      store where no Admin row with that address verifies the password. */
  lemma RegisterThenLogin(st: Store, d: RegistrationData, isEmail: string -> bool, h: Hasher, salt: string,
                          next: Option<string>)
    requires WellFormed(st) && Sound(h) && RegistrationFormValid(d, isEmail)
    requires forall k :: k in st.users ==> st.users[k].email != d.email
    requires forall a :: a in st.admins && st.admins[a].email == d.email ==> !CheckAdminPassword(h, st.admins[a], d.password)
    ensures var reg := Register(st, None, true, d, isEmail, h, salt);
      exists id: nat :: id !in st.users && id in reg.store.users
        && Login(reg.store, reg.session, LoginRequest(true, Some(d.email), Some(d.password), next), h)
           == Outcome(reg.store, Some(id), Redirect(NextOr(next, Home), LoginSuccess))
  {
    var reg := Register(st, None, true, d, isEmail, h, salt);
    RegistrationFormMeaning(d, isEmail);
    var id: nat :| id !in st.users && id in reg.store.users && reg.store.users == st.users[id := reg.store.users[id]]
      && reg.store.users[id].email == d.email && CheckUserPassword(h, reg.store.users[id], d.password);
    var req := LoginRequest(true, Some(d.email), Some(d.password), next);
    assert Attempt(reg.store, reg.session, req);
    UserWithRightPasswordSignsIn(reg.store, reg.session, req, h, id);
  }

  // -------------------------------------------------------------- logout

  /** `/logout`: always forgets the session and goes home. */
  function Logout(st: Store, session: Option<nat>): (r: Outcome)
    ensures r.store == st && r.session.None?
    ensures Current(r.store, r.session).None?
  {
    Outcome(st, None, Redirect(Home, LoggedOut))
  }

  /** After logging out, any admin route sends the visitor to log in. */
  lemma LogoutThenGate(st: Store, session: Option<nat>, requested: string, handled: Outcome)
    ensures var o := Logout(st, session);
      Guarded(o.store, o.session, requested, handled) == Outcome(st, None, Redirect(LoginPage(Some(requested)), LoginPrompt))
  {
  }

  // ------------------------------------------------------ HTTP Basic entry

  /** The challenge `/home/admin/` answers with (RFC 7617 section 2). */
  const BasicChallenge := "Basic realm=\"Admin Access\""

  datatype BasicCredentials = BasicCredentials(username: string, password: string)

  /** `/home/admin/`: an Admin session goes to the dashboard; otherwise
      Basic credentials are checked against the admin table only; anything
      else gets 401 with the Basic challenge. */
  function DirectAdminAccess(st: Store, session: Option<nat>, auth: Option<BasicCredentials>, h: Hasher): (r: Outcome)
    ensures r.store == st
    ensures r.response == Redirect(AdminDashboard, Quiet) || r.response == Redirect(AdminDashboard, LoginSuccess)
            || r.response.Unauthorized401?
    ensures r.response.Unauthorized401? ==> r.response.challenge == BasicChallenge && r.session == session
    ensures r.response.Redirect? <==> IsAdmin(Current(r.store, r.session))
    ensures !IsAdmin(Current(st, session)) ==>
      (r.response.Redirect? <==> auth.Some? && AdminMatch(st, h, auth.value.username, auth.value.password).Some?)
    ensures r.session != session ==> auth.Some? && r.session == AdminMatch(st, h, auth.value.username, auth.value.password)
  {
    if IsAdmin(Current(st, session)) then Outcome(st, session, Redirect(AdminDashboard, Quiet))
    else if auth.Some? && AdminMatch(st, h, auth.value.username, auth.value.password).Some? then
      Outcome(st, AdminMatch(st, h, auth.value.username, auth.value.password), Redirect(AdminDashboard, LoginSuccess))
    else
      Outcome(st, session, Unauthorized401(BasicChallenge, if auth.Some? then InvalidCredentials else Quiet))
  }

  /** `/home/admin/` consults only the admin table: replacing the users
      table changes nothing about its answer. */
  lemma DirectAccessIgnoresUsers(st: Store, session: Option<nat>, auth: Option<BasicCredentials>, h: Hasher,
                                 users: map<nat, User>)
    ensures DirectAdminAccess(st.(users := users), session, auth, h).response == DirectAdminAccess(st, session, auth, h).response
    ensures DirectAdminAccess(st.(users := users), session, auth, h).session == DirectAdminAccess(st, session, auth, h).session
  {
    AdminnessIgnoresUsers(st, users, session);
    if auth.Some? {
      // The admin lookup reads the admin table only.
      assert AdminMatch(st.(users := users), h, auth.value.username, auth.value.password)
          == AdminMatch(st, h, auth.value.username, auth.value.password);
    }
  }

  /** A signed-in User is challenged like a stranger, even with the
      User's own valid credentials in the header. */
  lemma DirectAccessChallengesUsers(st: Store, session: Option<nat>, c: BasicCredentials, h: Hasher)
    requires Current(st, session).Some? && Current(st, session).value.AsUser?
    requires AdminMatch(st, h, c.username, c.password).None?
    ensures DirectAdminAccess(st, session, Some(c), h).response == Unauthorized401(BasicChallenge, InvalidCredentials)
  {
  }
}
