/**
 The keyed and singleton content of routes.py: site images (at most one
 per known position), the resume (replaced wholesale on upload), and the
 contact information (created with defaults on first use). Also the
 public contact form and the ordered listings.
 */
module SiteContent {
  import opened Common
  import opened Tables
  import opened Models
  import opened Forms
  import opened Uploads
  import opened Web

  // --------------------------------------------------------- site images

  function ImageNamed(imageType: string): SiteImage -> bool
  {
    (i: SiteImage) => i.name == imageType
  }

  /** The site-image table's own constraints: one entry per known position. */
  ghost predicate ImagesWellFormed(images: map<nat, SiteImage>)
  {
    UniqueBy(images, (i: SiteImage) => i.name) && forall k :: k in images ==> images[k].name in SiteImageKinds
  }

  /** Point the entry for `imageType` at a new file, creating the entry
      when the position has none. */
  function UpsertImage(images: map<nat, SiteImage>, imageType: string, filename: string, now: nat): (r: map<nat, SiteImage>)
    ensures exists k :: k in r && r[k] == SiteImage(imageType, filename, now)
    ensures forall k :: k in images && images[k].name != imageType ==> k in r && r[k] == images[k]
    ensures forall k :: k in r && r[k].name != imageType ==> k in images
    ensures ImagesWellFormed(images) && imageType in SiteImageKinds ==> ImagesWellFormed(r)
  {
    match FirstWhere(images, ImageNamed(imageType))
    case Some(k) =>
      var r := images[k := SiteImage(imageType, filename, now)];
      assert r[k] == SiteImage(imageType, filename, now);
      r
    case None =>
      var (r, id) := Insert(images, SiteImage(imageType, filename, now));
      assert ImagesWellFormed(images) && imageType in SiteImageKinds ==> ImagesWellFormed(r) by {
        if ImagesWellFormed(images) && imageType in SiteImageKinds {
          forall i, j | i in r && j in r && r[i].name == r[j].name
            ensures i == j
          {
            if i == id || j == id {
              assert r[i].name == imageType;
            }
          }
        }
      }
      r
  }

  /** The body of `admin_upload_image` (it runs behind `Auth.Guarded`):
      unknown positions are refused; a valid upload updates the entry for
      the position, or inserts one. `now` is the clock reading. */
  function UploadSiteImage(st: Store, session: Option<nat>, imageType: string, post: bool, d: SiteImageData,
                           token: string, seps: set<char>, now: nat): (r: Outcome)
    requires '.' !in seps
    ensures r.session == session && r.store.(siteImages := st.siteImages) == st
    ensures imageType !in SiteImageKinds ==> r == Outcome(st, session, Redirect(AdminImages, InvalidImageType))
    ensures r.store.siteImages != st.siteImages ==> imageType in SiteImageKinds && post && SiteImageFormValid(d)
    ensures imageType in SiteImageKinds && post && SiteImageFormValid(d) ==> r.response == Redirect(AdminImages, Saved)
    ensures r.response == Redirect(AdminImages, Saved) ==>
      && post && SiteImageFormValid(d) && d.image.Some?
      && (exists k :: k in r.store.siteImages && r.store.siteImages[k].name == imageType
            && r.store.siteImages[k].filename == UploadName(token, d.image.value.filename, seps))
    ensures forall k :: k in st.siteImages && st.siteImages[k].name != imageType ==>
      k in r.store.siteImages && r.store.siteImages[k] == st.siteImages[k]
    ensures forall k :: k in r.store.siteImages && r.store.siteImages[k].name != imageType ==> k in st.siteImages
    ensures WellFormed(st) ==> WellFormed(r.store)
  {
    if imageType !in SiteImageKinds then Outcome(st, session, Redirect(AdminImages, InvalidImageType))
    else if !(post && SiteImageFormValid(d)) then Outcome(st, session, Render(Quiet))
    else
      var images := UpsertImage(st.siteImages, imageType, UploadName(token, d.image.value.filename, seps), now);
      Outcome(st.(siteImages := images), session, Redirect(AdminImages, Saved))
  }

  /** Upsert: in a well-formed store a position holds exactly one entry
      after a successful upload, carrying the new file name. */
  lemma UploadLeavesOneEntry(st: Store, session: Option<nat>, imageType: string, d: SiteImageData,
                             token: string, seps: set<char>, now: nat)
    requires '.' !in seps && WellFormed(st)
    requires imageType in SiteImageKinds && SiteImageFormValid(d)
    ensures var r := UploadSiteImage(st, session, imageType, true, d, token, seps, now);
      exists k :: k in r.store.siteImages && r.store.siteImages[k].name == imageType
        && r.store.siteImages[k].filename == UploadName(token, d.image.value.filename, seps)
        && forall j :: j in r.store.siteImages && r.store.siteImages[j].name == imageType ==> j == k
  {
    var r := UploadSiteImage(st, session, imageType, true, d, token, seps, now);
    var k :| k in r.store.siteImages && r.store.siteImages[k].name == imageType
        && r.store.siteImages[k].filename == UploadName(token, d.image.value.filename, seps);
  }

  /** The body of `delete_site_image` (behind `Auth.Guarded`). */
  function DeleteSiteImage(st: Store, session: Option<nat>, imageType: string): (r: Outcome)
    ensures r.session == session && r.store.(siteImages := st.siteImages) == st
    ensures imageType !in SiteImageKinds ==> r == Outcome(st, session, Redirect(AdminImages, InvalidImageType))
    ensures r.response == Redirect(AdminImages, ImageNotFound) ==> r.store == st
    ensures r.store != st ==> r.response == Redirect(AdminImages, Deleted)
    ensures forall k :: k in st.siteImages && st.siteImages[k].name != imageType ==>
      k in r.store.siteImages && r.store.siteImages[k] == st.siteImages[k]
    ensures forall k :: k in r.store.siteImages ==> k in st.siteImages && r.store.siteImages[k] == st.siteImages[k]
    ensures WellFormed(st) && imageType in SiteImageKinds ==>
      forall k :: k in r.store.siteImages ==> r.store.siteImages[k].name != imageType
    ensures WellFormed(st) ==> WellFormed(r.store)
  {
    if imageType !in SiteImageKinds then Outcome(st, session, Redirect(AdminImages, InvalidImageType))
    else
      match FirstWhere(st.siteImages, ImageNamed(imageType))
      case Some(k) =>
        assert WellFormed(st) ==> forall j :: j in st.siteImages && st.siteImages[j].name == imageType ==> j == k;
        Outcome(st.(siteImages := st.siteImages - {k}), session, Redirect(AdminImages, Deleted))
      case None => Outcome(st, session, Redirect(AdminImages, ImageNotFound))
  }

  // -------------------------------------------------------------- resume

  /** The name `download_resume` offers the file under. */
  const ResumeDownloadName := "Resume.pdf"

  /** The body of `admin_resume` (behind `Auth.Guarded`): a valid upload
      deletes every resume row and adds one for the new file. */
  function UploadResume(st: Store, session: Option<nat>, post: bool, d: ResumeData,
                        token: string, seps: set<char>, now: nat): (r: Outcome)
    requires '.' !in seps
    ensures r.session == session && r.store.(resumes := st.resumes) == st
    ensures r.store.resumes != st.resumes ==> post && ResumeFormValid(d)
    ensures post && ResumeFormValid(d) ==>
      && r.response == Redirect(AdminResume, ResumeUploaded)
      && |r.store.resumes| == 1
      && forall k :: k in r.store.resumes ==> r.store.resumes[k].filename == UploadName(token, d.resume.value.filename, seps)
    ensures WellFormed(st) ==> WellFormed(r.store)
  {
    if post && ResumeFormValid(d) then
      var name := UploadName(token, d.resume.value.filename, seps);
      var (resumes, id) := Insert(map[], Resume(name, now));
      assert resumes.Keys == {id};
      Outcome(st.(resumes := resumes), session, Redirect(AdminResume, ResumeUploaded))
    else Outcome(st, session, Render(Quiet))
  }

  /** `download_resume`: serve the first resume when its file is on disk
      (`onDisk` stands for `os.path.exists`), else go home. */
  function DownloadResume(st: Store, onDisk: string -> bool): (r: Response)
    ensures r.SendFile? ==>
      && r.downloadName == ResumeDownloadName && onDisk(r.filename)
      && exists k :: k in st.resumes && st.resumes[k].filename == r.filename
    ensures !r.SendFile? ==> r == Redirect(Home, ResumeNotFound)
    ensures st.resumes == map[] ==> r == Redirect(Home, ResumeNotFound)
    ensures forall k :: k in st.resumes && (forall j :: j in st.resumes ==> k <= j) ==>
      r == (if onDisk(st.resumes[k].filename) then SendFile(st.resumes[k].filename, ResumeDownloadName)
            else Redirect(Home, ResumeNotFound))
  {
    match FirstWhere(st.resumes, (x: Resume) => true)
    case Some(k) =>
      if onDisk(st.resumes[k].filename) then SendFile(st.resumes[k].filename, ResumeDownloadName)
      else Redirect(Home, ResumeNotFound)
    case None => Redirect(Home, ResumeNotFound)
  }

  /** After an upload, the download serves the new file (when it is on disk). */
  lemma DownloadAfterUpload(st: Store, session: Option<nat>, d: ResumeData, token: string, seps: set<char>,
                            now: nat, onDisk: string -> bool)
    requires '.' !in seps && ResumeFormValid(d)
    requires onDisk(UploadName(token, d.resume.value.filename, seps))
    ensures DownloadResume(UploadResume(st, session, true, d, token, seps, now).store, onDisk)
            == SendFile(UploadName(token, d.resume.value.filename, seps), ResumeDownloadName)
  {
    var s := UploadResume(st, session, true, d, token, seps, now).store;
    var k :| k in s.resumes;
  }

  // -------------------------------------------------------- contact info

  const DefaultMapEmbedUrl := "https://www.google.com/maps/embed?pb=!1m18!1m12!1m3!1d3001156.428151844!2d-78.01059036852154!3d42.72837739473232!2m3!1f0!2f0!3f0!3m2!1i1024!2i768!4f13.1!3m3!1m2!1s0x4ccc4bf0f123a5a9%3A0xddcfc6c1de189567!2sNew%20York%2C%20USA!5e0!3m2!1sen!2sus!4v1690923407186!5m2!1sen!2sus"

  /** The record created when none exists. */
  const DefaultContactInfo := ContactInfo("contact@example.com", "", "City, Country", DefaultMapEmbedUrl)

  /** Get-or-create: the first contact-info record, or a new default one. */
  function EnsureContactInfo(st: Store): (r: (Store, nat))
    ensures r.1 in r.0.contactInfo
    ensures r.0.(contactInfo := st.contactInfo) == st
    ensures st.contactInfo != map[] ==> r.0 == st
    ensures st.contactInfo == map[] ==> r.0.contactInfo == map[r.1 := DefaultContactInfo]
    ensures WellFormed(st) ==> WellFormed(r.0) && r.0.contactInfo.Keys == {r.1}
  {
    match FirstWhere(st.contactInfo, (c: ContactInfo) => true)
    case Some(k) =>
      assert |st.contactInfo| <= 1 ==> st.contactInfo.Keys == {k} by {
        if |st.contactInfo| <= 1 {
          assert |st.contactInfo.Keys - {k}| == |st.contactInfo.Keys| - 1 == 0;
        }
      }
      (st, k)
    case None =>
      var (c, id) := Insert(st.contactInfo, DefaultContactInfo);
      assert c == map[id := DefaultContactInfo];
      (st.(contactInfo := c), id)
  }

  /** Get-or-create is idempotent. */
  lemma EnsureContactInfoIdempotent(st: Store)
    ensures EnsureContactInfo(EnsureContactInfo(st).0) == EnsureContactInfo(st)
  {
  }

  /** The public `/contact` route: get-or-create the contact record; a
      valid message is stored (sending the mail is not modelled). */
  function Contact(st: Store, session: Option<nat>, post: bool, d: MessageData, isEmail: string -> bool,
                   now: nat): (r: Outcome)
    ensures r.session == session
    ensures r.store.(contactInfo := st.contactInfo, messages := st.messages) == st
    ensures r.store.contactInfo.Keys != {} && (WellFormed(st) ==> |r.store.contactInfo| == 1)
    ensures post && MessageFormValid(d, isEmail) ==>
      && r.response == Redirect(ContactPage, MessageSent)
      && |r.store.messages| == |st.messages| + 1
      && exists k: nat :: k !in st.messages && r.store.messages == st.messages[k := Message(d.name, d.email, d.message, now)]
    ensures !(post && MessageFormValid(d, isEmail)) ==> r.store.messages == st.messages && r.response == Render(Quiet)
    ensures WellFormed(st) ==> WellFormed(r.store)
  {
    var (s, _) := EnsureContactInfo(st);
    assert WellFormed(st) ==> s.contactInfo.Keys == {EnsureContactInfo(st).1};
    if post && MessageFormValid(d, isEmail) then
      var (messages, id) := Insert(s.messages, Message(d.name, d.email, d.message, now));
      assert messages == s.messages[id := Message(d.name, d.email, d.message, now)];
      Outcome(s.(messages := messages), session, Redirect(ContactPage, MessageSent))
    else Outcome(s, session, Render(Quiet))
  }

  /** The body of `admin_contact_info` (behind `Auth.Guarded`):
      get-or-create, then a valid form overwrites the record's fields. */
  function AdminContactInfo(st: Store, session: Option<nat>, post: bool, d: ContactInfoData,
                            isEmail: string -> bool): (r: Outcome)
    ensures r.session == session && r.store.(contactInfo := st.contactInfo) == st
    ensures WellFormed(st) ==> WellFormed(r.store) && |r.store.contactInfo| == 1
    ensures post && ContactInfoFormValid(d, isEmail) ==>
      r.response == Redirect(AdminContact, ContactUpdated)
      && exists k :: k in r.store.contactInfo && r.store.contactInfo[k] == ContactInfo(d.email, d.phone, d.location, d.mapEmbedUrl)
    ensures !(post && ContactInfoFormValid(d, isEmail)) ==> r.store == EnsureContactInfo(st).0
  {
    var (s, k) := EnsureContactInfo(st);
    if post && ContactInfoFormValid(d, isEmail) then
      var c := s.contactInfo[k := ContactInfo(d.email, d.phone, d.location, d.mapEmbedUrl)];
      assert c.Keys == s.contactInfo.Keys;
      Outcome(s.(contactInfo := c), session, Redirect(AdminContact, ContactUpdated))
    else Outcome(s, session, Render(Quiet))
  }

  // ------------------------------------------------------------ listings

  /** `Education.query.order_by(Education.order)`: every row once, in
      non-decreasing `order` (ties by id). */
  function EducationListing(st: Store): (r: seq<nat>)
    ensures |r| == |st.education.Keys| && forall k :: k in st.education <==> k in r
    ensures forall i, j :: 0 <= i < j < |r| ==>
      r[i] in st.education && r[j] in st.education && st.education[r[i]].order <= st.education[r[j]].order
  {
    var r := OrderedIds(st.education, (e: Education) => e.order);
    assert SortedIds(st.education, (e: Education) => e.order, r);
    r
  }

  /** `Experience.query.order_by(Experience.order)`. */
  function ExperienceListing(st: Store): (r: seq<nat>)
    ensures |r| == |st.experience.Keys| && forall k :: k in st.experience <==> k in r
    ensures forall i, j :: 0 <= i < j < |r| ==>
      r[i] in st.experience && r[j] in st.experience && st.experience[r[i]].order <= st.experience[r[j]].order
  {
    var r := OrderedIds(st.experience, (e: Experience) => e.order);
    assert SortedIds(st.experience, (e: Experience) => e.order, r);
    r
  }

  /** `Message.query.order_by(Message.date.desc())`: newest first. */
  function MessagesNewestFirst(st: Store): (r: seq<nat>)
    ensures |r| == |st.messages.Keys| && forall k :: k in st.messages <==> k in r
    ensures forall i, j :: 0 <= i < j < |r| ==>
      r[i] in st.messages && r[j] in st.messages && st.messages[r[i]].date >= st.messages[r[j]].date
  {
    var r := OrderedIds(st.messages, (m: Message) => -(m.date as int));
    assert SortedIds(st.messages, (m: Message) => -(m.date as int), r);
    r
  }
}
