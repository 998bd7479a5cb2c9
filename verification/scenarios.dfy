/**
 End-to-end consequences that span several routes: first boot, the first
 registration, and what the bare-id session does with them.
 */
module Scenarios {
  import opened Common
  import opened Tables
  import opened Models
  import opened Forms
  import opened Web
  import opened Identity
  import opened Auth

  /** On a fresh database, the seeded Admin and the first registered User
      both get id 1. The User's login stores that bare id, which then
      resolves to the Admin: the User lands on the home page yet passes the
      admin gate of every protected route. */
  lemma FirstUserSignsInAsAdmin(h: Hasher, adminSalt: string, adminPassword: string, userSalt: string,
                                d: RegistrationData, isEmail: string -> bool, requested: string, handled: Outcome)
    requires Sound(h) && RegistrationFormValid(d, isEmail) && d.email != BootstrapEmail
    ensures var seeded := Seed(EmptyStore, h, adminSalt, adminPassword);
            var registered := Register(seeded, None, true, d, isEmail, h, userSalt).store;
            var signedIn := Login(registered, None, LoginRequest(true, Some(d.email), Some(d.password), None), h);
            && registered.admins.Keys == {1} && registered.users.Keys == {1}
            && registered.users[1].email == d.email
            && signedIn.session == Some(1)
            && signedIn.response == Redirect(Home, LoginSuccess)
            && Current(registered, signedIn.session) == Some(AsAdmin(1, registered.admins[1]))
            && Guarded(registered, signedIn.session, requested, handled) == handled
  {
    var seeded := Seed(EmptyStore, h, adminSalt, adminPassword);
    EmptyStoreWellFormed();
    assert seeded.users == map[];
    var reg := Register(seeded, None, true, d, isEmail, h, userSalt);
    var registered := reg.store;
    var id: nat :| id !in seeded.users && id in registered.users && registered.users == seeded.users[id := registered.users[id]]
      && registered.users[id].email == d.email && CheckUserPassword(h, registered.users[id], d.password);
    assert id == 1 by {
      assert registered.users == map[id := registered.users[id]];
      assert registered.users.Keys == {id};
      assert registered.users == Insert(map[], SetUserPassword(h, userSalt, User(d.name, d.email, ""), d.password)).0;
    }
    RegistrationFormMeaning(d, isEmail);
    var req := LoginRequest(true, Some(d.email), Some(d.password), None);
    assert Truthy(req.email) && Truthy(req.password);
    assert AdminMatch(registered, h, d.email, d.password) == None by {
      assert registered.admins[1].email == BootstrapEmail;
      assert FirstWhere(registered.admins, (a: Admin) => a.email == d.email) == None;
    }
    assert UserMatch(registered, h, d.email, d.password) == Some(1) by {
      FirstIsOnly(registered.users, (u: User) => u.email, d.email, 1);
    }
  }
}
