/**
 Identity resolution and first-boot seeding (app.py). The session keeps
 only a numeric id; `LoadUser` turns it back into an account by trying
 the admin table first and the users table second. The two tables number
 their rows independently, so one id can name an Admin and a User at once,
 and then the Admin wins.
 */
module Identity {
  import opened Common
  import opened Tables
  import opened Models

  datatype Identity = AsAdmin(id: nat, admin: Admin) | AsUser(id: nat, user: User)

  /** `load_user(user_id)`. */
  function LoadUser(st: Store, id: nat): (r: Option<Identity>)
    ensures r.Some? ==> r.value.id == id
    ensures r.Some? && r.value.AsAdmin? <==> id in st.admins
    ensures r.Some? && r.value.AsUser? <==> id !in st.admins && id in st.users
    ensures r.Some? && r.value.AsAdmin? ==> r.value.admin == st.admins[id]
    ensures r.Some? && r.value.AsUser? ==> r.value.user == st.users[id]
  {
    if id in st.admins then Some(AsAdmin(id, st.admins[id]))
    else if id in st.users then Some(AsUser(id, st.users[id]))
    else None
  }

  /** `current_user`, or None for the anonymous user. */
  function Current(st: Store, session: Option<nat>): (r: Option<Identity>)
    ensures session.None? ==> r.None?
    ensures r.Some? ==> session == Some(r.value.id)
    ensures session.Some? ==> r == LoadUser(st, session.value)
  {
    match session
    case None => None
    case Some(id) => LoadUser(st, id)
  }

  predicate IsAdmin(cur: Option<Identity>)
  {
    cur.Some? && cur.value.AsAdmin?
  }

  /** An id in the admin table resolves to that Admin whatever the users
      table holds. */
  lemma AdminWinsWhateverUsers(st: Store, users: map<nat, User>, id: nat)
    requires id in st.admins
    ensures LoadUser(st.(users := users), id) == Some(AsAdmin(id, st.admins[id]))
  {
  }

  /** Whether the current identity is an Admin depends on the admin table
      and the session alone. */
  lemma AdminnessIgnoresUsers(st: Store, users: map<nat, User>, session: Option<nat>)
    ensures IsAdmin(Current(st.(users := users), session)) == IsAdmin(Current(st, session))
  {
  }

  /** An id present in both tables resolves to the Admin: a User logged in
      under such an id is treated as that Admin. */
  lemma CollidingIdResolvesToAdmin(st: Store, id: nat)
    requires id in st.users && id in st.admins
    ensures Current(st, Some(id)) == Some(AsAdmin(id, st.admins[id]))
  {
  }

  /** The address the first-boot admin is created with. */
  const BootstrapEmail := "admin@example.com"

  /** First-boot seeding: when the admin table is empty, create one Admin
      with the bootstrap address and the digest of the bootstrap password;
      otherwise leave the store alone. */
  function Seed(st: Store, h: Hasher, salt: string, password: string): (r: Store)
    ensures st.admins != map[] ==> r == st
    ensures st.admins == map[] ==> r.admins.Keys == {1} && r.admins[1].email == BootstrapEmail
    ensures st.admins == map[] && Sound(h) ==> CheckAdminPassword(h, r.admins[1], password)
    ensures r.(admins := st.admins) == st
    ensures WellFormed(st) ==> WellFormed(r)
  {
    if st.admins != map[] then st
    else
      var admin := SetAdminPassword(h, salt, Admin(BootstrapEmail, ""), password);
      st.(admins := Insert(st.admins, admin).0)
  }

  /** Seeding again, on any later boot, changes nothing. */
  lemma SeedIdempotent(st: Store, h: Hasher, salt1: string, salt2: string, pw1: string, pw2: string)
    ensures Seed(Seed(st, h, salt1, pw1), h, salt2, pw2) == Seed(st, h, salt1, pw1)
  {
  }
}
