/**
 The admin content routes of routes.py: the shared create/update/delete
 pattern of projects, skills, certificates, education and experience.
 */
module Content {
  import opened Common
  import opened Tables
  import opened Models
  import opened Forms
  import opened Uploads
  import opened Web
  import opened Identity
  import opened Auth

  // ------------------------------------------ create / update / delete

  /** A handler's effect on one table. */
  datatype Step<T> = Step(table: map<nat, T>, response: Response)

  /** `admin_*_form` exactly as written: the row is looked up under
      `if row_id:`, so id 0 counts as "new", but the new row is added
      only under `if row_id is None:`. `accepted` is
      `form.validate_on_submit()`, `apply` fills a row from the form. */
  function FormRouteAsWritten<T>(table: map<nat, T>, rowId: Option<nat>, accepted: bool, blank: T,
                                 apply: T -> T, kind: ContentKind): (r: Step<T>)
    ensures rowId.Some? && rowId.value != 0 && rowId.value !in table ==> r == Step(table, NotFound404)
    ensures r.response == Redirect(AdminList(kind), Saved) <==>
      accepted && (rowId.None? || rowId.value == 0 || rowId.value in table)
    ensures r.response != Redirect(AdminList(kind), Saved) ==> r.table == table
    ensures r.table != table ==> accepted
    ensures rowId == Some(0) ==> r.table == table
    ensures r.response == Redirect(AdminList(kind), Saved) && rowId.Some? && rowId.value != 0 ==>
      rowId.value in table && r.table == table[rowId.value := apply(table[rowId.value])]
    ensures r.response == Redirect(AdminList(kind), Saved) && rowId.None? ==>
      exists id: nat :: id !in table && r.table == table[id := apply(blank)]
  {
    if rowId.Some? && rowId.value != 0 && rowId.value !in table then Step(table, NotFound404)
    else if !accepted then Step(table, Render(Quiet))
    else if rowId.Some? && rowId.value != 0 then
      Step(table[rowId.value := apply(table[rowId.value])], Redirect(AdminList(kind), Saved))
    else if rowId.None? then
      var (t, id) := Insert(table, apply(blank));
      assert t == table[id := apply(blank)];
      Step(t, Redirect(AdminList(kind), Saved))
    else
      Step(table, Redirect(AdminList(kind), Saved))
  }

  /** As written, a valid submission to `/admin/<kind>/0/update` reports
      "saved" and stores nothing. */
  lemma ZeroIdSavesNothing<T>(table: map<nat, T>, blank: T, apply: T -> T, kind: ContentKind)
    requires forall k :: k in table ==> table[k] != apply(blank)
    ensures var r := FormRouteAsWritten(table, Some(0), true, blank, apply, kind);
      r.response == Redirect(AdminList(kind), Saved) && r.table == table
      && !exists k :: k in r.table && r.table[k] == apply(blank)
  {
  }

  /** `admin_*_form` with the id test the code evidently means
      (`row_id is not None` in both places): a missing row is 404, and a
      "saved" answer means the row was written, nothing else changing. */
  function FormRoute<T>(table: map<nat, T>, rowId: Option<nat>, accepted: bool, blank: T,
                        apply: T -> T, kind: ContentKind): (r: Step<T>)
    ensures rowId.Some? && rowId.value !in table ==> r == Step(table, NotFound404)
    ensures r.response == Redirect(AdminList(kind), Saved) <==> accepted && (rowId.None? || rowId.value in table)
    ensures !r.response.Redirect? ==> r.table == table
    ensures r.table != table ==> accepted
    ensures r.response.Redirect? ==> r.response == Redirect(AdminList(kind), Saved)
    ensures r.response.Redirect? && rowId.Some? ==>
      r.table.Keys == table.Keys && r.table[rowId.value] == apply(table[rowId.value])
      && forall k :: k in table && k != rowId.value ==> r.table[k] == table[k]
    ensures r.response.Redirect? && rowId.None? ==>
      exists id: nat :: id !in table && id in r.table && r.table == table[id := apply(blank)]
  {
    if rowId.Some? && rowId.value !in table then Step(table, NotFound404)
    else if !accepted then Step(table, Render(Quiet))
    else if rowId.Some? then
      Step(table[rowId.value := apply(table[rowId.value])], Redirect(AdminList(kind), Saved))
    else
      var (t, id) := Insert(table, apply(blank));
      assert t == table[id := apply(blank)];
      Step(t, Redirect(AdminList(kind), Saved))
  }

  /** The two versions differ only on id 0. */
  lemma FormRouteAgreesOffZero<T>(table: map<nat, T>, rowId: Option<nat>, accepted: bool, blank: T,
                                  apply: T -> T, kind: ContentKind)
    requires rowId != Some(0)
    ensures FormRouteAsWritten(table, rowId, accepted, blank, apply, kind) == FormRoute(table, rowId, accepted, blank, apply, kind)
  {
  }

  /** The corrected route answers id 0 with 404: no row ever has id 0. */
  lemma ZeroIdNotFound<T>(table: map<nat, T>, accepted: bool, blank: T, apply: T -> T, kind: ContentKind)
    requires 0 !in table
    ensures FormRoute(table, Some(0), accepted, blank, apply, kind).response == NotFound404
  {
  }

  /** The content tables play no part in the store's well-formedness. */
  lemma ContentTablesIrrelevant(st: Store, st': Store)
    requires st'.users == st.users && st'.admins == st.admins && st'.siteImages == st.siteImages
    requires st'.resumes == st.resumes && st'.contactInfo == st.contactInfo
    ensures WellFormed(st') == WellFormed(st)
  {
  }

  /** `delete_*`: remove the row, or 404 when there is none. */
  function DeleteRow<T>(table: map<nat, T>, id: nat, kind: ContentKind): (r: Step<T>)
    ensures id in table ==> r.response == Redirect(AdminList(kind), Deleted) && r.table.Keys == table.Keys - {id}
    ensures id !in table ==> r == Step(table, NotFound404)
    ensures forall k :: k in r.table ==> k in table && r.table[k] == table[k]
  {
    if id in table then Step(table - {id}, Redirect(AdminList(kind), Deleted))
    else Step(table, NotFound404)
  }

  // Filling a row from a validated form; an uploaded image replaces the
  // stored name, no upload keeps it.

  function NewImage(current: string, image: Option<FileUpload>, token: string, seps: set<char>): string
    requires '.' !in seps
  {
    if FilePresent(image) then UploadName(token, image.value.filename, seps) else current
  }

  function NewOptionalImage(current: Option<string>, image: Option<FileUpload>, token: string, seps: set<char>): Option<string>
    requires '.' !in seps
  {
    if FilePresent(image) then Some(UploadName(token, image.value.filename, seps)) else current
  }

  function FillProject(p: Project, d: ProjectData, token: string, seps: set<char>): Project
    requires '.' !in seps
  {
    Project(d.title, d.description, NewImage(p.image, d.image, token, seps), d.link)
  }

  function FillSkill(s: Skill, d: SkillData, token: string, seps: set<char>): Skill
    requires '.' !in seps
  {
    s.(name := d.name, image := NewOptionalImage(s.image, d.image, token, seps))
  }

  function FillCertificate(c: Certificate, d: CertificateData, token: string, seps: set<char>): Certificate
    requires '.' !in seps
  {
    Certificate(d.title, NewImage(c.image, d.image, token, seps))
  }

  function FillEducation(e: Education, d: EducationData, token: string, seps: set<char>): Education
    requires '.' !in seps
  {
    Education(d.degree, d.institution, d.startDate, d.endDate, d.description, d.order,
              NewOptionalImage(e.image, d.image, token, seps))
  }

  function FillExperience(e: Experience, d: ExperienceData): Experience
  {
    Experience(d.position, d.company, d.startDate, d.endDate, d.description, d.order)
  }

  /** The body of `admin_project_form` (it runs behind `Auth.Guarded`), with the id
      test as written. */
  function SaveProject(st: Store, session: Option<nat>, rowId: Option<nat>, post: bool,
                       d: ProjectData, token: string, seps: set<char>): (r: Outcome)
    requires '.' !in seps
    ensures r.session == session && r.store.(projects := st.projects) == st
    ensures r.store.projects != st.projects ==> post && ProjectFormValid(d)
    ensures rowId.Some? && rowId.value != 0 && rowId.value !in st.projects ==> r == Outcome(st, session, NotFound404)
    ensures r.response == Redirect(AdminList(Projects), Saved) <==>
      post && ProjectFormValid(d) && (rowId.None? || rowId.value == 0 || rowId.value in st.projects)
    ensures rowId == Some(0) ==> r.store == st
    ensures r.response == Redirect(AdminList(Projects), Saved) && rowId.Some? && rowId.value != 0 ==>
      rowId.value in st.projects && r.store.projects == st.projects[rowId.value := FillProject(st.projects[rowId.value], d, token, seps)]
    ensures r.response == Redirect(AdminList(Projects), Saved) && rowId.None? ==>
      exists id: nat :: id !in st.projects && r.store.projects == st.projects[id := FillProject(BlankProject, d, token, seps)]
  {
    var step := FormRouteAsWritten(st.projects, rowId, post && ProjectFormValid(d), BlankProject,
                                   x => FillProject(x, d, token, seps), Projects);
    Outcome(st.(projects := step.table), session, step.response)
  }


  /** A project created without an image keeps the declared default. */
  lemma NewProjectDefaultImage(d: ProjectData, token: string, seps: set<char>)
    requires '.' !in seps && !FilePresent(d.image)
    ensures FillProject(BlankProject, d, token, seps).image == DefaultProjectImage
  {
  }

  /** A validated project form yields a row within the column widths
      (image column at the width generated names need). */
  lemma ProjectFormFitsColumns(p: Project, d: ProjectData, token: string, seps: set<char>)
    requires PlatformSeps(seps) && IsHexToken(token)
    requires ProjectFormValid(d) && |p.image| <= ImageNameWidth
    ensures ProjectFits(FillProject(p, d, token, seps))
  {
    if FilePresent(d.image) {
      AcceptedImageNameFits(token, d.image.value.filename, seps);
    }
  }

  /** The body of `admin_skill_form` (it runs behind `Auth.Guarded`), with the id
      test as written. */
  function SaveSkill(st: Store, session: Option<nat>, rowId: Option<nat>, post: bool,
                     d: SkillData, token: string, seps: set<char>): (r: Outcome)
    requires '.' !in seps
    ensures r.session == session && r.store.(skills := st.skills) == st
    ensures r.store.skills != st.skills ==> post && SkillFormValid(d)
    ensures rowId.Some? && rowId.value != 0 && rowId.value !in st.skills ==> r == Outcome(st, session, NotFound404)
    ensures r.response == Redirect(AdminList(Skills), Saved) <==>
      post && SkillFormValid(d) && (rowId.None? || rowId.value == 0 || rowId.value in st.skills)
    ensures rowId == Some(0) ==> r.store == st
    ensures r.response == Redirect(AdminList(Skills), Saved) && rowId.Some? && rowId.value != 0 ==>
      rowId.value in st.skills && r.store.skills == st.skills[rowId.value := FillSkill(st.skills[rowId.value], d, token, seps)]
    ensures r.response == Redirect(AdminList(Skills), Saved) && rowId.None? ==>
      exists id: nat :: id !in st.skills && r.store.skills == st.skills[id := FillSkill(BlankSkill, d, token, seps)]
  {
    var step := FormRouteAsWritten(st.skills, rowId, post && SkillFormValid(d), BlankSkill,
                                   x => FillSkill(x, d, token, seps), Skills);
    Outcome(st.(skills := step.table), session, step.response)
  }


  /** The body of `admin_certificate_form` (it runs behind `Auth.Guarded`), with the id
      test as written. */
  function SaveCertificate(st: Store, session: Option<nat>, rowId: Option<nat>, post: bool,
                           d: CertificateData, token: string, seps: set<char>): (r: Outcome)
    requires '.' !in seps
    ensures r.session == session && r.store.(certificates := st.certificates) == st
    ensures r.store.certificates != st.certificates ==> post && CertificateFormValid(d)
    ensures rowId.Some? && rowId.value != 0 && rowId.value !in st.certificates ==> r == Outcome(st, session, NotFound404)
    ensures r.response == Redirect(AdminList(Certificates), Saved) <==>
      post && CertificateFormValid(d) && (rowId.None? || rowId.value == 0 || rowId.value in st.certificates)
    ensures rowId == Some(0) ==> r.store == st
    ensures r.response == Redirect(AdminList(Certificates), Saved) && rowId.Some? && rowId.value != 0 ==>
      rowId.value in st.certificates && r.store.certificates == st.certificates[rowId.value := FillCertificate(st.certificates[rowId.value], d, token, seps)]
    ensures r.response == Redirect(AdminList(Certificates), Saved) && rowId.None? ==>
      exists id: nat :: id !in st.certificates && r.store.certificates == st.certificates[id := FillCertificate(BlankCertificate, d, token, seps)]
  {
    var step := FormRouteAsWritten(st.certificates, rowId, post && CertificateFormValid(d), BlankCertificate,
                                   x => FillCertificate(x, d, token, seps), Certificates);
    Outcome(st.(certificates := step.table), session, step.response)
  }


  /** The body of `admin_education_form` (it runs behind `Auth.Guarded`), with the id
      test as written. */
  function SaveEducation(st: Store, session: Option<nat>, rowId: Option<nat>, post: bool,
                         d: EducationData, token: string, seps: set<char>): (r: Outcome)
    requires '.' !in seps
    ensures r.session == session && r.store.(education := st.education) == st
    ensures r.store.education != st.education ==> post && EducationFormValid(d)
    ensures rowId.Some? && rowId.value != 0 && rowId.value !in st.education ==> r == Outcome(st, session, NotFound404)
    ensures r.response == Redirect(AdminList(EducationItems), Saved) <==>
      post && EducationFormValid(d) && (rowId.None? || rowId.value == 0 || rowId.value in st.education)
    ensures rowId == Some(0) ==> r.store == st
    ensures r.response == Redirect(AdminList(EducationItems), Saved) && rowId.Some? && rowId.value != 0 ==>
      rowId.value in st.education && r.store.education == st.education[rowId.value := FillEducation(st.education[rowId.value], d, token, seps)]
    ensures r.response == Redirect(AdminList(EducationItems), Saved) && rowId.None? ==>
      exists id: nat :: id !in st.education && r.store.education == st.education[id := FillEducation(BlankEducation, d, token, seps)]
  {
    var step := FormRouteAsWritten(st.education, rowId, post && EducationFormValid(d), BlankEducation,
                                   x => FillEducation(x, d, token, seps), EducationItems);
    Outcome(st.(education := step.table), session, step.response)
  }


  /** The body of `admin_experience_form` (it runs behind `Auth.Guarded`), with the id
      test as written. */
  function SaveExperience(st: Store, session: Option<nat>, rowId: Option<nat>, post: bool,
                          d: ExperienceData): (r: Outcome)
    ensures r.session == session && r.store.(experience := st.experience) == st
    ensures r.store.experience != st.experience ==> post && ExperienceFormValid(d)
    ensures rowId.Some? && rowId.value != 0 && rowId.value !in st.experience ==> r == Outcome(st, session, NotFound404)
    ensures r.response == Redirect(AdminList(ExperienceItems), Saved) <==>
      post && ExperienceFormValid(d) && (rowId.None? || rowId.value == 0 || rowId.value in st.experience)
    ensures rowId == Some(0) ==> r.store == st
    ensures r.response == Redirect(AdminList(ExperienceItems), Saved) && rowId.Some? && rowId.value != 0 ==>
      rowId.value in st.experience && r.store.experience == st.experience[rowId.value := FillExperience(st.experience[rowId.value], d)]
    ensures r.response == Redirect(AdminList(ExperienceItems), Saved) && rowId.None? ==>
      exists id: nat :: id !in st.experience && r.store.experience == st.experience[id := FillExperience(BlankExperience, d)]
  {
    var step := FormRouteAsWritten(st.experience, rowId, post && ExperienceFormValid(d), BlankExperience,
                                   x => FillExperience(x, d), ExperienceItems);
    Outcome(st.(experience := step.table), session, step.response)
  }


  /** The content routes keep the store's constraints. */
  lemma SavesKeepWellFormed(st: Store, session: Option<nat>, rowId: Option<nat>, post: bool, token: string,
                            seps: set<char>, dp: ProjectData, ds: SkillData, dc: CertificateData,
                            de: EducationData, dx: ExperienceData)
    requires '.' !in seps && WellFormed(st)
    ensures WellFormed(SaveProject(st, session, rowId, post, dp, token, seps).store)
    ensures WellFormed(SaveSkill(st, session, rowId, post, ds, token, seps).store)
    ensures WellFormed(SaveCertificate(st, session, rowId, post, dc, token, seps).store)
    ensures WellFormed(SaveEducation(st, session, rowId, post, de, token, seps).store)
    ensures WellFormed(SaveExperience(st, session, rowId, post, dx).store)
  {
    ContentTablesIrrelevant(st, SaveProject(st, session, rowId, post, dp, token, seps).store);
    ContentTablesIrrelevant(st, SaveSkill(st, session, rowId, post, ds, token, seps).store);
    ContentTablesIrrelevant(st, SaveCertificate(st, session, rowId, post, dc, token, seps).store);
    ContentTablesIrrelevant(st, SaveEducation(st, session, rowId, post, de, token, seps).store);
    ContentTablesIrrelevant(st, SaveExperience(st, session, rowId, post, dx).store);
  }

  /** A row an education or experience form writes carries the form's
      non-negative `order` (the form's `NumberRange(min=0)`). */
  lemma SavedOrderNonNegative(st: Store, session: Option<nat>, rowId: Option<nat>, post: bool,
                              de: EducationData, dx: ExperienceData, token: string, seps: set<char>)
    requires '.' !in seps && rowId != Some(0)
    ensures var r := SaveEducation(st, session, rowId, post, de, token, seps);
      r.response == Redirect(AdminList(EducationItems), Saved) ==>
        exists k :: k in r.store.education && r.store.education[k].order == de.order >= 0
    ensures var r := SaveExperience(st, session, rowId, post, dx);
      r.response == Redirect(AdminList(ExperienceItems), Saved) ==>
        exists k :: k in r.store.experience && r.store.experience[k].order == dx.order >= 0
  {
    EducationFormMeaning(de);
    ExperienceFormMeaning(dx);
    var re := SaveEducation(st, session, rowId, post, de, token, seps);
    if re.response == Redirect(AdminList(EducationItems), Saved) {
      if rowId.Some? {
        assert re.store.education[rowId.value].order == de.order;
      } else {
        var id: nat :| id !in st.education && re.store.education == st.education[id := FillEducation(BlankEducation, de, token, seps)];
        assert re.store.education[id].order == de.order;
      }
    }
    var rx := SaveExperience(st, session, rowId, post, dx);
    if rx.response == Redirect(AdminList(ExperienceItems), Saved) {
      if rowId.Some? {
        assert rx.store.experience[rowId.value].order == dx.order;
      } else {
        var id: nat :| id !in st.experience && rx.store.experience == st.experience[id := FillExperience(BlankExperience, dx)];
        assert rx.store.experience[id].order == dx.order;
      }
    }
  }

  /** Validated education and experience forms fit their columns. */
  lemma DatedFormsFitColumns(e: Education, de: EducationData, x: Experience, dx: ExperienceData,
                             token: string, seps: set<char>)
    requires PlatformSeps(seps) && IsHexToken(token)
    requires EducationFormValid(de) && (e.image.Some? ==> |e.image.value| <= ImageNameWidth)
    requires ExperienceFormValid(dx)
    ensures EducationFits(FillEducation(e, de, token, seps))
    ensures ExperienceFits(FillExperience(x, dx))
  {
    if FilePresent(de.image) {
      AcceptedImageNameFits(token, de.image.value.filename, seps);
    }
  }

  /** Validated skill and certificate forms fit their columns (the
      certificate image column at the width generated names need). */
  lemma ShortFormsFitColumns(sk: Skill, ds: SkillData, c: Certificate, dc: CertificateData,
                             token: string, seps: set<char>)
    requires PlatformSeps(seps) && IsHexToken(token)
    requires SkillFormValid(ds) && (sk.image.Some? ==> |sk.image.value| <= ImageNameWidth)
    requires CertificateFormValid(dc) && |c.image| <= ImageNameWidth
    ensures SkillFits(FillSkill(sk, ds, token, seps))
    ensures CertificateFits(FillCertificate(c, dc, token, seps))
  {
    if FilePresent(ds.image) {
      AcceptedImageNameFits(token, ds.image.value.filename, seps);
    }
    if FilePresent(dc.image) {
      AcceptedImageNameFits(token, dc.image.value.filename, seps);
    }
  }

  /** Against the declared 20-character image column, a validated project
      form with a ".jpeg" upload yields a row that does not fit. */
  lemma JpegProjectOverflowsDeclared(p: Project, title: string, description: string, link: string,
                                     token: string, seps: set<char>)
    requires PlatformSeps(seps) && IsHexToken(token)
    requires ProjectFormValid(ProjectData(title, description, link, Some(FileUpload("photo.jpeg"))))
    ensures !ProjectFitsDeclared(FillProject(p, ProjectData(title, description, link, Some(FileUpload("photo.jpeg"))), token, seps))
  {
    JpegNameExceedsDeclaredWidth(token, seps);
  }

  /** The ids present in the table a content kind is stored in. */
  function KindIds(st: Store, kind: ContentKind): set<nat>
  {
    match kind
    case Projects => st.projects.Keys
    case Skills => st.skills.Keys
    case Certificates => st.certificates.Keys
    case EducationItems => st.education.Keys
    case ExperienceItems => st.experience.Keys
  }

  /** The body of `delete_project` ... `delete_experience`: remove the
      row of the kind's table, or answer 404 when there is none. */
  function DeleteHandler(st: Store, session: Option<nat>, kind: ContentKind, id: nat): (r: Outcome)
    ensures r.session == session
    ensures r.store.(projects := st.projects, skills := st.skills, certificates := st.certificates,
                     education := st.education, experience := st.experience) == st
    ensures r.response == (if id in KindIds(st, kind) then Redirect(AdminList(kind), Deleted) else NotFound404)
    ensures r.store.projects == if kind == Projects then st.projects - {id} else st.projects
    ensures r.store.skills == if kind == Skills then st.skills - {id} else st.skills
    ensures r.store.certificates == if kind == Certificates then st.certificates - {id} else st.certificates
    ensures r.store.education == if kind == EducationItems then st.education - {id} else st.education
    ensures r.store.experience == if kind == ExperienceItems then st.experience - {id} else st.experience
  {
    match kind
    case Projects =>
      var s := DeleteRow(st.projects, id, kind); Outcome(st.(projects := s.table), session, s.response)
    case Skills =>
      var s := DeleteRow(st.skills, id, kind); Outcome(st.(skills := s.table), session, s.response)
    case Certificates =>
      var s := DeleteRow(st.certificates, id, kind); Outcome(st.(certificates := s.table), session, s.response)
    case EducationItems =>
      var s := DeleteRow(st.education, id, kind); Outcome(st.(education := s.table), session, s.response)
    case ExperienceItems =>
      var s := DeleteRow(st.experience, id, kind); Outcome(st.(experience := s.table), session, s.response)
  }

  /** The `delete_project` ... `delete_experience` routes, behind the gate. */
  function DeleteContent(st: Store, session: Option<nat>, requested: string, kind: ContentKind, id: nat): (r: Outcome)
    ensures r.session == session
    ensures kind != Projects ==> r.store.projects == st.projects
    ensures kind != Skills ==> r.store.skills == st.skills
    ensures kind != Certificates ==> r.store.certificates == st.certificates
    ensures kind != EducationItems ==> r.store.education == st.education
    ensures kind != ExperienceItems ==> r.store.experience == st.experience
    ensures r.store.(projects := st.projects, skills := st.skills, certificates := st.certificates,
                     education := st.education, experience := st.experience) == st
    ensures r.response == Redirect(AdminList(kind), Deleted) ==> IsAdmin(Current(st, session))
    ensures !IsAdmin(Current(st, session)) ==> r.store == st
    ensures IsAdmin(Current(st, session)) ==>
      r.response == (if id in KindIds(st, kind) then Redirect(AdminList(kind), Deleted) else NotFound404)
    ensures IsAdmin(Current(st, session)) && kind == Projects ==> r.store.projects == st.projects - {id}
    ensures IsAdmin(Current(st, session)) && kind == Skills ==> r.store.skills == st.skills - {id}
    ensures IsAdmin(Current(st, session)) && kind == Certificates ==> r.store.certificates == st.certificates - {id}
    ensures IsAdmin(Current(st, session)) && kind == EducationItems ==> r.store.education == st.education - {id}
    ensures IsAdmin(Current(st, session)) && kind == ExperienceItems ==> r.store.experience == st.experience - {id}
    ensures WellFormed(st) ==> WellFormed(r.store)
  {
    Guarded(st, session, requested, DeleteHandler(st, session, kind, id))
  }
}
