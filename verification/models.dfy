/**
 The persistent records of the portfolio site (models/models.py) and the
 store that holds one table of each. Column widths and defaults are the
 declared ones; SQLite does not enforce VARCHAR widths, so they appear
 here as predicates rows may or may not satisfy, not as types.
 */
module Models {
  import opened Common
  import opened Tables

  /** Standard account (table `users`). `password` holds the digest. */
  datatype User = User(name: string, email: string, password: string)

  /** Privileged account (table `admin`). */
  datatype Admin = Admin(email: string, password: string)

  datatype Project = Project(title: string, description: string, image: string, link: string)
  datatype Skill = Skill(name: string, icon: string, image: Option<string>)
  datatype Certificate = Certificate(title: string, image: string)
  /** `date` is an opaque clock reading: only its order matters. */
  datatype Message = Message(name: string, email: string, message: string, date: nat)
  datatype Resume = Resume(filename: string, uploadDate: nat)
  datatype SiteImage = SiteImage(name: string, filename: string, uploadDate: nat)
  datatype ContactInfo = ContactInfo(email: string, phone: string, location: string, mapEmbedUrl: string)
  datatype Education = Education(degree: string, institution: string, startDate: string, endDate: string,
                                 description: string, order: int, image: Option<string>)
  datatype Experience = Experience(position: string, company: string, startDate: string, endDate: string,
                                   description: string, order: int)

  // Declared column widths.
  const NameWidth := 100
  const TitleWidth := 100
  const LinkWidth := 200
  const DateTextWidth := 20
  const LongTextWidth := 200
  /** `Project.image` and `Certificate.image` as declared. */
  const DeclaredImageWidth := 20
  /** The width the other image-name columns (`Skill.image`,
      `Education.image`) declare, and the one generated names need. */
  const ImageNameWidth := 100

  // Declared defaults.
  const DefaultProjectImage := "default.jpg"
  const DefaultCertificateImage := "default.jpg"
  const DefaultSkillIcon := "default.png"
  const DefaultOrder := 0

  /** Rows as the constructors leave them before a form fills them in. */
  const BlankProject := Project("", "", DefaultProjectImage, "")
  const BlankSkill := Skill("", DefaultSkillIcon, None)
  const BlankCertificate := Certificate("", DefaultCertificateImage)
  const BlankEducation := Education("", "", "", "", "", DefaultOrder, None)
  const BlankExperience := Experience("", "", "", "", "", DefaultOrder)

  /** Werkzeug's password primitives, left uninterpreted:
      `hash(salt, plain)` gives a digest, `check(digest, plain)` verifies. */
  datatype Hasher = Hasher(hash: (string, string) -> string, check: (string, string) -> bool)

  /** The correctness the hashing primitive is trusted to have: a digest
      of `plain` verifies `plain`, whatever the salt. */
  ghost predicate Sound(h: Hasher)
  {
    forall salt, plain :: h.check(h.hash(salt, plain), plain)
  }

  /** `User.set_password`: only the digest changes, and it verifies the new password. */
  function SetUserPassword(h: Hasher, salt: string, u: User, plain: string): (r: User)
    ensures r.name == u.name && r.email == u.email
    ensures Sound(h) ==> CheckUserPassword(h, r, plain)
  {
    u.(password := h.hash(salt, plain))
  }

  predicate CheckUserPassword(h: Hasher, u: User, plain: string)
  {
    h.check(u.password, plain)
  }

  /** `Admin.set_password`: only the digest changes, and it verifies the new password. */
  function SetAdminPassword(h: Hasher, salt: string, a: Admin, plain: string): (r: Admin)
    ensures r.email == a.email
    ensures Sound(h) ==> CheckAdminPassword(h, r, plain)
  {
    a.(password := h.hash(salt, plain))
  }

  predicate CheckAdminPassword(h: Hasher, a: Admin, plain: string)
  {
    h.check(a.password, plain)
  }

  /** The three positions a site image may fill. */
  const SiteImageKinds: set<string> := {"profile", "home_hero", "about_banner"}

  /** The whole database: one map from primary key to row per table. */
  datatype Store = Store(
    users: map<nat, User>,
    admins: map<nat, Admin>,
    projects: map<nat, Project>,
    skills: map<nat, Skill>,
    certificates: map<nat, Certificate>,
    messages: map<nat, Message>,
    resumes: map<nat, Resume>,
    siteImages: map<nat, SiteImage>,
    contactInfo: map<nat, ContactInfo>,
    education: map<nat, Education>,
    experience: map<nat, Experience>)

  const EmptyStore := Store(map[], map[], map[], map[], map[], map[], map[], map[], map[], map[], map[])

  /** The database constraints (UNIQUE on `users.email`, `admin.email`,
      `site_images.name`) and the shape the routes keep: site images only
      under the three known names, at most one resume, at most one
      contact-info record. Nothing relates the two account tables. */
  ghost predicate WellFormed(st: Store)
  {
    && UniqueBy(st.users, (u: User) => u.email)
    && UniqueBy(st.admins, (a: Admin) => a.email)
    && UniqueBy(st.siteImages, (i: SiteImage) => i.name)
    && (forall k :: k in st.siteImages ==> st.siteImages[k].name in SiteImageKinds)
    && |st.resumes| <= 1
    && |st.contactInfo| <= 1
  }

  /** The empty database is well formed. */
  lemma EmptyStoreWellFormed()
    ensures WellFormed(EmptyStore)
  {
  }

  /** The two email constraints are per table: one address may name both
      an Admin and a User in a well-formed store. */
  lemma SameEmailInBothTables(email: string, d1: string, d2: string)
    ensures var st := EmptyStore.(users := map[1 := User("n", email, d1)], admins := map[1 := Admin(email, d2)]);
            WellFormed(st) && st.users[1].email == st.admins[1].email
  {
  }

  /** Column widths a project row must meet, as declared (image 20). */
  predicate ProjectFitsDeclared(p: Project)
  {
    |p.title| <= TitleWidth && |p.image| <= DeclaredImageWidth && |p.link| <= LinkWidth
  }

  /** The same with the image column as wide as the generated names need. */
  predicate ProjectFits(p: Project)
  {
    |p.title| <= TitleWidth && |p.image| <= ImageNameWidth && |p.link| <= LinkWidth
  }

  predicate CertificateFits(c: Certificate)
  {
    |c.title| <= TitleWidth && |c.image| <= ImageNameWidth
  }

  predicate SkillFits(s: Skill)
  {
    |s.name| <= NameWidth && (s.image.Some? ==> |s.image.value| <= ImageNameWidth)
  }

  predicate EducationFits(e: Education)
  {
    && |e.degree| <= LongTextWidth && |e.institution| <= LongTextWidth
    && |e.startDate| <= DateTextWidth && |e.endDate| <= DateTextWidth
    && (e.image.Some? ==> |e.image.value| <= ImageNameWidth)
  }

  predicate ExperienceFits(e: Experience)
  {
    && |e.position| <= LongTextWidth && |e.company| <= LongTextWidth
    && |e.startDate| <= DateTextWidth && |e.endDate| <= DateTextWidth
  }
}
