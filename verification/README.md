# Portfolio site core in Dafny

This project models the decision logic of a small Flask portfolio site. The
site has public pages and a contact form. It keeps two account tables
(`users` and `admin`), and an admin area manages projects, skills,
certificates, education and experience entries, site images, the resume and
the contact details. The model is functional:

- The database is a `Store`: one finite map from integer primary key to row
  per table.
- A session is a bare `Option<nat>`, the id that `login_user` stores, with no
  account-kind tag.
- Every route is a pure function from store, session and request to a new
  store, a new session and an abstract `Response`. The response is a
  redirect, a page render, a 401 challenge, a 404 or a file download.

Modules follow the program's structure:

- `Common`, `Tables`: options; SQLite rowid tables. A new id is the largest
  id plus one, or 1 in an empty table. `.first()` is the lowest matching id.
  `order_by` sorts by the column, with ties broken by id.
- `Models`: the rows of models/models.py with their column widths and
  defaults, password setting and checking, and the store's uniqueness
  constraints (`WellFormed`).
- `Forms`: the WTForms / Flask-WTF validators of forms/forms.py as
  predicates, with one lemma per form saying what acceptance means.
- `Uploads`: Python's `os.path.splitext` and the stored upload name
  `token_hex(8) + extension`.
- `Identity`: `load_user` (Admin first, then User) and first-boot seeding of
  the admin account.
- `Auth`: the `login_required` / `admin_required` gate, `/login`,
  `/register`, `/logout` and the HTTP Basic entry `/home/admin/`. Its 401
  answer carries the `Basic realm="Admin Access"` challenge of RFC 7617
  section 2, as sections 3.1 and 4.1 of RFC 7235 require.
- `Content`: the shared create/update/delete routes of the five content
  tables.
- `SiteContent`: the site-image upsert and delete, the resume replace-all and
  download, contact-info get-or-create, the contact form, and the ordered
  listings.
- `Scenarios`: consequences that span several routes.

The hash function, the password check, the random token, the clock, the
filesystem test of the resume download, the `Email()` address check and the
path-separator set are parameters. `Sound(h)` is the assumption that the
password check accepts the digest the hash produced. Results that need it
carry it as a hypothesis.

## Model

| member | source | states |
|---|---|---|
| `Tables.FirstWhere` | routes.py:165 | `filter_by(...).first()`: None exactly when no row matches; otherwise a matching row whose id is no larger than any other match |
| `Tables.FirstIsOnly` | models/models.py:13 | under a UNIQUE column, the first row with a value is the row holding it |
| `Tables.OrderedIds` | routes.py:602 | `order_by(col).all()` lists every row exactly once (same count, same members) in non-decreasing column order, ties by id |
| `Tables.OrderedIdsSortedByKey` | routes.py:675 | any two positions of an ordered listing are in column order |
| `Models.SetUserPassword` | models/models.py:16-20 | `set_password` changes only the digest, and `check_password` of the same plaintext then holds for a sound hasher |
| `Models.SetAdminPassword` | models/models.py:32-36 | the same for Admin rows |
| `Models.SameEmailInBothTables` | models/models.py:13-29 | the email constraints are per table: one address may name a User and an Admin in a well-formed store |
| `Forms.LoginFormMeaning` | forms/forms.py:7-8 | LoginForm accepts exactly when the email is non-blank and well-formed and the password is non-blank |
| `Forms.RegistrationFormMeaning` | forms/forms.py:12-14 | RegistrationForm accepts exactly when the name is 2 to 100 characters and non-blank, the email is non-blank and well-formed, and the password is non-blank with at least 6 characters |
| `Forms.ProjectFormMeaning` | forms/forms.py:18-23 | ProjectForm accepts exactly when the title is non-blank and at most 100 characters, the description is non-blank, the link is at most 200 characters, and any uploaded image has an image extension |
| `Forms.OptionalImageForms` | forms/forms.py:27-37 | skill and certificate forms accept without an image; an image, when present, must carry jpg, jpeg, png or gif; education forms impose the same on their image |
| `Forms.MessageFormMeaning` | forms/forms.py:41-43 | a contact message needs a name of 2 to 100 characters, a non-blank well-formed email and a non-blank message, and that suffices |
| `Forms.RequiredFileForms` | forms/forms.py:47-57 | the resume upload is required and must end in `.pdf`; a site image is required and must carry an image extension; both directions |
| `Forms.EducationFormMeaning` | forms/forms.py:61-69 | EducationForm accepts exactly when degree and institution are non-blank and at most 200 characters, the dates are non-blank and at most 20 characters, `order >= 0`, and any image has an image extension |
| `Forms.ExperienceFormMeaning` | forms/forms.py:73-78 | the same bounds for ExperienceForm, which has no image |
| `Forms.DataRequiredIsNonBlank` | forms/forms.py:18 | `DataRequired` strips the text: a text of any length made only of white space fails, and one holding any other character passes |
| `Uploads.Splitext` | routes.py:265 | `os.path.splitext`: root and extension concatenate back to the name; the extension is empty or a dot followed by no dot or separator; a non-empty extension has a non-dot character before it in the basename, so leading dots do not start one |
| `Uploads.ExtensionOfDottedName` | routes.py:265 | a basename with a non-dot character, a dot and a dot-free suffix has exactly that dot and suffix as its extension |
| `Uploads.NoDotNoExtension` | routes.py:265 | a name without a dot has no extension |
| `Uploads.LeadingDotNameNoExtension` | routes.py:265 | a name like `.bashrc`, whose only dot leads it, has no extension |
| `Uploads.UploadName` | routes.py:264-266 | the stored name is the token followed by the uploaded name's extension, dot included |
| `Uploads.UploadNameShape` | routes.py:454-456 | with a 16-hex-digit token, the stored name is 16 hex digits then either nothing or a single dot and dot-free extension |
| `Uploads.AcceptedExtension` | routes.py:537-539 | a name that passes `FileAllowed` yields the empty extension or `.` plus one of the allowed extensions |
| `Uploads.AcceptedImageNameLength` | routes.py:331-333 | an accepted image gets a stored name of at most 21 characters |
| `Uploads.JpegNameExceedsDeclaredWidth` | models/models.py:47 | an accepted `photo.jpeg` is stored under a 21-character name, longer than the declared 20 |
| `Uploads.AcceptedImageNameFits` | models/models.py:59 | every accepted image name fits a 100-character column |
| `Identity.LoadUser` | app.py:37-49 | an id in the admin table resolves to that Admin; a User only when no Admin has the id and a User does; nothing when neither table has it |
| `Identity.Current` | app.py:38-40 | no session means anonymous; a stored id resolves through `load_user`, whose answer carries that id |
| `Identity.AdminWinsWhateverUsers` | app.py:40-43 | an Admin id resolves to the Admin whatever the users table holds |
| `Identity.AdminnessIgnoresUsers` | app.py:40-43 | whether the current identity is an Admin depends only on the admin table and the session |
| `Identity.CollidingIdResolvesToAdmin` | app.py:40-48 | an id present in both tables resolves to the Admin |
| `Identity.Seed` | app.py:55-61 | an empty admin table gets exactly one Admin, id 1, with the bootstrap address and a password that checks; a non-empty one is left alone; nothing else changes; constraints are kept |
| `Identity.SeedIdempotent` | app.py:55 | seeding twice equals seeding once |
| `Auth.LoginRequired` | app.py:30 | `login_required` stops exactly the anonymous visitor, redirecting to the `login` view with the requested URL as `next` |
| `Auth.AdminRequired` | routes.py:13-20 | `admin_required` lets exactly an Admin through; anyone else goes home with "Access denied" |
| `Auth.Guarded` | routes.py:213-216 | a non-Admin never changes the store or the session; an Admin gets the handler's outcome |
| `Auth.GateOrdering` | routes.py:13-20 | a stranger is sent to log in, a signed-in non-Admin is sent home with "Access denied", and the gate itself never changes the store |
| `Auth.StackingMatters` | routes.py:214-215 | `admin_required` alone would send a stranger home; stacked under `login_required` the stranger goes to the login view |
| `Auth.AdminMatch` | routes.py:165-166 | a match is an Admin row with the address whose digest checks the password; in a well-formed store, when the address has a row, the match is that row exactly when its digest checks |
| `Auth.UserMatch` | routes.py:173-174 | the same against the users table |
| `Auth.AdminWithRightPasswordSignsIn` | routes.py:164-170 | an Admin submitting their address and a checking password is signed in under their row's id and sent to `next` or the dashboard |
| `Auth.UserWithRightPasswordSignsIn` | routes.py:172-178 | a User submitting their address and a checking password, with no Admin row of that address checking it, is signed in under their row's id and sent to `next` or home |
| `Auth.RegisterThenLogin` | routes.py:156-203 | after registering, logging in with the same address and password signs the visitor in under the new row's id |
| `Auth.NextOr` | routes.py:169-170 | a present non-empty `next` wins; otherwise the account kind's landing page |
| `Auth.Login` | routes.py:138-184 | the store never changes; a signed-in visitor is redirected by kind; a successful login stores an id whose Admin or User row has the address and checks the password; every other outcome keeps the session |
| `Auth.LoginAdminFirst` | routes.py:164-170 | when the admin row verifies, the visitor is signed in as that Admin and sent to `next` or the dashboard, whatever the users table holds |
| `Auth.LoginFallsThroughToUsers` | routes.py:172-178 | an address whose admin check fails is tried against users and, on success, sent to `next` or home |
| `Auth.LoginFailureIsGeneric` | routes.py:180-184 | when nothing verifies, the answer is one generic failure and the session stays |
| `Auth.LoginWhenSignedIn` | routes.py:140-144 | a signed-in visitor gets the same answer whatever was submitted |
| `Auth.LoginBypassesForm` | routes.py:156-163 | the route reads the raw fields, so an address LoginForm would reject still logs in |
| `Auth.Register` | routes.py:188-203 | the users table changes exactly for an anonymous, submitted, valid form; it then gains one row with the name, the address and a checking digest, and the visitor is sent to log in; constraints are kept |
| `Auth.Logout` | routes.py:207-210 | the session is forgotten and the visitor is anonymous; the store is untouched |
| `Auth.LogoutThenGate` | routes.py:207-216 | after logout, any admin route sends the visitor to log in and changes nothing |
| `Auth.DirectAdminAccess` | routes.py:23-43 | the store never changes; the answer is a dashboard redirect exactly when the visitor ends up an Admin, and otherwise a 401 with the Basic challenge and an unchanged session; a visitor who is not yet an Admin is redirected exactly when Basic credentials match an Admin row, and the session changes only to that row's id |
| `Auth.DirectAccessIgnoresUsers` | routes.py:26-37 | `/home/admin/` answers the same whatever the users table holds |
| `Auth.DirectAccessChallengesUsers` | routes.py:41-43 | a signed-in User without Admin credentials gets the 401 challenge |
| `Content.FormRouteAsWritten` | routes.py:242-278 | the create/update route as written: a non-zero missing id is 404; "saved" exactly for an accepted form with no id, id 0 or an existing id; on "saved" an existing id's row is replaced by the filled row, no id adds the filled blank under a fresh id, and id 0 stores nothing; the table changes only on "saved" |
| `Content.ZeroIdSavesNothing` | routes.py:244-276 | as written, a valid form posted for id 0 answers "saved" yet leaves the table unchanged |
| `Content.FormRoute` | routes.py:242-285 | the corrected route (see Findings), with the id test made consistent: a missing id is 404; "saved" exactly when the form is accepted and the id is absent or present; an update rewrites that row only; a create adds one row under a fresh id; nothing changes otherwise |
| `Content.FormRouteAgreesOffZero` | routes.py:244-273 | the two versions agree on every request except id 0 |
| `Content.ZeroIdNotFound` | routes.py:244-245 | with the consistent test, id 0 of a table without that row is 404 |
| `Content.DeleteRow` | routes.py:291-296 | an existing row is removed, with nothing else changed; a missing one is 404 |
| `Content.SaveProject` | routes.py:242-285 | the handler as written (id test `if id:` / `is None`): only its own table can change, and only for a POST of a valid form; a valid POST with no id, id 0 or an existing id answers "saved"; a missing non-zero id is 404; on "saved" an existing id's row becomes the filled row and every other row is unchanged, no id adds the filled blank row under a fresh id, and id 0 stores nothing |
| `Content.NewProjectDefaultImage` | models/models.py:47 | a project created without an upload keeps `default.jpg` |
| `Content.ProjectFormFitsColumns` | models/models.py:45-48 | a validated project form yields a row within the column widths, with the image column as wide as generated names need |
| `Content.JpegProjectOverflowsDeclared` | models/models.py:45-48 | against the declared 20-character image column, a validated project form uploading `photo.jpeg` yields a row that does not fit |
| `Content.ShortFormsFitColumns` | models/models.py:52-64 | validated skill and certificate forms yield rows within their column widths, with the certificate image column as wide as generated names need |
| `Content.SaveSkill` | routes.py:311-350 | the same for skills |
| `Content.SaveCertificate` | routes.py:376-415 | the same for certificates |
| `Content.SaveEducation` | routes.py:609-658 | the same for education |
| `Content.SaveExperience` | routes.py:682-714 | the same for experience, whose form has no upload |
| `Content.SavesKeepWellFormed` | models/models.py:13-29 | the five form handlers keep the store's uniqueness constraints |
| `Content.SavedOrderNonNegative` | forms/forms.py:66 | for any id but 0, a "saved" education or experience answer leaves a row holding the submitted, non-negative order |
| `Content.DatedFormsFitColumns` | models/models.py:123-141 | validated education and experience forms yield rows within their column widths |
| `Content.DeleteHandler` | routes.py:291-296 | the `delete_*` body: an existing row of the kind's table is removed and the answer is "deleted"; a missing id is 404; every other table is unchanged |
| `Content.DeleteContent` | routes.py:288-296 | behind the gate, a non-Admin leaves the store unchanged; for an Admin an existing row is removed with "deleted" and a missing id is 404; at most its own table changes; constraints are kept |
| `SiteContent.UpsertImage` | routes.py:546-556 | after the upsert, an entry for the position holds the new file; entries for other positions are unchanged and none is added; one entry per position is kept |
| `SiteContent.UploadSiteImage` | routes.py:517-564 | an unknown position changes nothing; only a valid upload to a known position changes the table; a valid upload to a known position answers "saved", which means the position's entry holds the generated name; other positions are unchanged |
| `SiteContent.UploadLeavesOneEntry` | routes.py:546-556 | in a well-formed store, after an upload exactly one entry has that position's name, and it carries the new file |
| `SiteContent.DeleteSiteImage` | routes.py:570-595 | an unknown position changes nothing; only a "deleted" answer changes anything; in a well-formed store no entry for the position remains; other entries are unchanged |
| `SiteContent.UploadResume` | routes.py:440-478 | only a valid upload changes the resumes table, which then holds exactly one record carrying the new file |
| `SiteContent.DownloadResume` | routes.py:482-490 | a download serves a stored resume file present on disk under the fixed name; otherwise the visitor goes home with "not found"; the lowest-id record is served exactly when its file is on disk |
| `SiteContent.DownloadAfterUpload` | routes.py:465-488 | after an upload, the download serves the newly uploaded file |
| `SiteContent.EnsureContactInfo` | routes.py:95-105 | an existing record is returned with the store unchanged; otherwise a single default record is created; a well-formed store ends with exactly one record |
| `SiteContent.EnsureContactInfoIdempotent` | routes.py:95-96 | get-or-create twice equals once |
| `SiteContent.Contact` | routes.py:92-135 | contact info exists afterwards; a valid message adds one row, under a new id, with the submitted fields and the clock reading, and keeps every existing message; otherwise messages are unchanged |
| `SiteContent.AdminContactInfo` | routes.py:730-762 | a well-formed store ends with exactly one record, which for a valid form holds the submitted fields |
| `SiteContent.EducationListing` | routes.py:65 | every education row listed once, in non-decreasing `order` |
| `SiteContent.ExperienceListing` | routes.py:66 | every experience row listed once, in non-decreasing `order` |
| `SiteContent.MessagesNewestFirst` | routes.py:433 | every message listed once, newest first |
| `Scenarios.FirstUserSignsInAsAdmin` | routes.py:173-175 | on a fresh database, the seeded Admin and the first registered User both get id 1; after the User logs in, the session resolves to the Admin and passes every admin route's gate |

## Left out

- Mail sending from the contact route, every `print`, and the flash texts.
  Flash messages become a `Notice` tag and templates are not modelled. The
  raw password printed during login is a defect of the code, not behaviour.
- Filesystem effects: `os.makedirs`, `file.save` and `os.remove` of old
  images. The existence test in `download_resume` is the parameter `onDisk`.
- Werkzeug hashing internals. The hasher is a pair of functions, and
  `Sound(h)` states the only property used. Salts and `secrets.token_hex`
  are parameters.
- The personal literals of the code (the bootstrap admin address, the
  default contact address and the resume's download name) are replaced by
  neutral placeholders; no contract depends on their text.
- The bootstrap admin password is a parameter of `Identity.Seed`. The code
  hard-codes a literal, which the model does not repeat.
- `datetime.utcnow`: the clock is a natural-number parameter `now`.
  Listings sorted by date compare these numbers.
- `Email()` address syntax: a parameter `isEmail`. Flask-WTF lower-cases the
  file name before its extension test; the model compares it as given.
- `Forms.OptionalImageForms`: states acceptance of the optional image for
  education forms in one direction only. The full equivalence is
  `Forms.EducationFormMeaning`.
- Parsing of `request.authorization`, of `int(user_id)`, and of
  IntegerField text. Inputs arrive already parsed.
- Flask-Login's capture of `next`. The open redirect through `next`
  after login is modelled (`Url(next)`) but not judged.
- CSRF protection and configuration and secrets.
- SQLAlchemy mechanics: sessions, autoflush, transactions.
- `Auth.Register`: the IntegrityError raised when a registered address is
  used again is not modelled. Its precondition keeps the address new on
  that path.
- `Tables.OrderedIds`: SQL leaves the order of equal keys open; the model
  breaks ties by id, so the listing contracts promise more than SQL does.
- `Tables.FirstWhere`: `.first()` without ORDER BY is taken to be the
  lowest id, which is SQLite's rowid scan order.
- Uploads: the path separators are a parameter. `Uploads.PlatformSeps`
  admits the POSIX and the Windows sets.
- Read-only pages: `home`, `about`, `projects`, `skills`,
  `certificates`, `admin_dashboard`, the admin list pages and
  `admin_images` only render. The listings with an `order_by` are
  modelled; plain `.all()` has no order to state.
- The GET pre-filling of edit forms is not modelled.
- static/js/script.js: browser-side animation with no server state.

## Findings

| source | as written | input that shows it | evidently intended | confidence | as-written member | corrected member |
|---|---|---|---|---|---|---|
| routes.py:244-274 | the row is looked up under `if project_id:` but added only under `if project_id is None:`; the same holds in the skill, certificate, education and experience forms | a valid POST to `/admin/projects/0/update`: the answer is "Project saved successfully!" and nothing is stored | test `is not None` in both places, so id 0 is looked up and gives 404 | medium, not executed | `Content.FormRouteAsWritten` (the handlers `Content.SaveProject` … `Content.SaveExperience` are built on it), `Content.ZeroIdSavesNothing` | `Content.FormRoute`, `Content.ZeroIdNotFound` |
| models/models.py:47 | `Project.image` and `Certificate.image` are `String(20)`, while generated names are 16 hex digits plus the extension | uploading `photo.jpeg` stores a 21-character name | a column as wide as the generated names, as for `Skill.image` (100) | medium, not executed; SQLite does not enforce VARCHAR widths, other databases do | `Uploads.JpegNameExceedsDeclaredWidth` | `Uploads.AcceptedImageNameFits`, `Content.ProjectFormFitsColumns` |
