/**
 The forms of forms/forms.py: the meaning of each WTForms / Flask-WTF
 validator, the submitted values of each form, and each form's validator
 chains applied to those values. The lemmas at the end state what
 accepting each form means for its fields.
 */
module Forms {
  import opened Common

  /** An uploaded file as the request carries it. */
  datatype FileUpload = FileUpload(filename: string)

  /** A submitted field value: text, an integer, or an optional file. */
  datatype FieldValue = Text(s: string) | Int(n: int) | File(f: Option<FileUpload>)

  /** The WTForms / Flask-WTF validators the forms use. `Length` follows
      WTForms: a `max` of -1 means no upper bound. */
  datatype Validator =
    | DataRequired
    | Email
    | Length(min: int, max: int)
    | NumberRange(min: int)
    | FileRequired
    | FileAllowed(extensions: set<string>)

  /** Python's `str.isspace`, which `DataRequired` relies on through `strip()`. */
  predicate IsSpace(c: char)
  {
    || ('\t' <= c <= '\r') || ('\U{1C}' <= c <= ' ') || c == '\U{85}' || c == '\U{A0}' || c == '\U{1680}'
    || ('\U{2000}' <= c <= '\U{200A}') || c == '\U{2028}' || c == '\U{2029}' || c == '\U{202F}'
    || c == '\U{205F}' || c == '\U{3000}'
  }

  /** Text that survives `strip()`: at least one non-space character. */
  predicate HasContent(s: string)
  {
    exists i :: 0 <= i < |s| && !IsSpace(s[i])
  }

  /** A file is present when the request carries one with a non-empty name
      (Werkzeug's FileStorage is falsy otherwise). */
  predicate FilePresent(f: Option<FileUpload>)
  {
    f.Some? && f.value.filename != ""
  }

  /** Flask-WTF's extension test: the name ends in "." followed by one of the
      allowed extensions. */
  predicate HasAllowedExtension(filename: string, extensions: set<string>)
  {
    exists e :: e in extensions && EndsWith(filename, "." + e)
  }

  /** Whether one validator accepts one value; `isEmail` stands for the
      address-syntax check of `Email()`, which is not modelled. */
  predicate Passes(v: Validator, x: FieldValue, isEmail: string -> bool)
  {
    match v
    case DataRequired => x.Text? && HasContent(x.s)
    case Email => x.Text? && isEmail(x.s)
    case Length(lo, hi) => x.Text? && lo <= |x.s| && (hi == -1 || |x.s| <= hi)
    case NumberRange(lo) => x.Int? && lo <= x.n
    case FileRequired => x.File? && FilePresent(x.f)
    case FileAllowed(exts) => x.File? && (!FilePresent(x.f) || HasAllowedExtension(x.f.value.filename, exts))
  }

  /** Stand-in address check for forms without an `Email()` field. */
  const NoEmail: string -> bool := (s: string) => false

  const ImageExtensions: set<string> := {"jpg", "jpeg", "png", "gif"}
  const ResumeExtensions: set<string> := {"pdf"}

  // The submitted values of each form.
  datatype LoginData = LoginData(email: string, password: string)
  datatype RegistrationData = RegistrationData(name: string, email: string, password: string)
  datatype ProjectData = ProjectData(title: string, description: string, link: string, image: Option<FileUpload>)
  datatype SkillData = SkillData(name: string, image: Option<FileUpload>)
  datatype CertificateData = CertificateData(title: string, image: Option<FileUpload>)
  datatype MessageData = MessageData(name: string, email: string, message: string)
  datatype ResumeData = ResumeData(resume: Option<FileUpload>)
  datatype SiteImageData = SiteImageData(image: Option<FileUpload>)
  datatype EducationData = EducationData(degree: string, institution: string, startDate: string, endDate: string,
                                         description: string, order: int, image: Option<FileUpload>)
  datatype ExperienceData = ExperienceData(position: string, company: string, startDate: string, endDate: string,
                                           description: string, order: int)
  datatype ContactInfoData = ContactInfoData(email: string, phone: string, location: string, mapEmbedUrl: string)

  /** An optional image passes when absent, or when its name carries an image extension. */
  predicate OptionalImageOk(f: Option<FileUpload>)
  {
    !FilePresent(f) || HasAllowedExtension(f.value.filename, ImageExtensions)
  }

  // The declarations of forms/forms.py: each field's validator chain
  // applied to its value.

  predicate LoginFormValid(d: LoginData, isEmail: string -> bool)
  {
    && Passes(DataRequired, Text(d.email), isEmail) && Passes(Email, Text(d.email), isEmail)
    && Passes(DataRequired, Text(d.password), isEmail)
  }

  predicate RegistrationFormValid(d: RegistrationData, isEmail: string -> bool)
  {
    && Passes(DataRequired, Text(d.name), isEmail) && Passes(Length(2, 100), Text(d.name), isEmail)
    && Passes(DataRequired, Text(d.email), isEmail) && Passes(Email, Text(d.email), isEmail)
    && Passes(DataRequired, Text(d.password), isEmail) && Passes(Length(6, -1), Text(d.password), isEmail)
  }

  predicate ProjectFormValid(d: ProjectData)
  {
    && Passes(DataRequired, Text(d.title), NoEmail) && Passes(Length(-1, 100), Text(d.title), NoEmail)
    && Passes(DataRequired, Text(d.description), NoEmail)
    && Passes(Length(-1, 200), Text(d.link), NoEmail)
    && Passes(FileAllowed(ImageExtensions), File(d.image), NoEmail)
  }

  predicate SkillFormValid(d: SkillData)
  {
    && Passes(DataRequired, Text(d.name), NoEmail) && Passes(Length(-1, 100), Text(d.name), NoEmail)
    && Passes(FileAllowed(ImageExtensions), File(d.image), NoEmail)
  }

  predicate CertificateFormValid(d: CertificateData)
  {
    && Passes(DataRequired, Text(d.title), NoEmail) && Passes(Length(-1, 100), Text(d.title), NoEmail)
    && Passes(FileAllowed(ImageExtensions), File(d.image), NoEmail)
  }

  predicate MessageFormValid(d: MessageData, isEmail: string -> bool)
  {
    && Passes(DataRequired, Text(d.name), isEmail) && Passes(Length(2, 100), Text(d.name), isEmail)
    && Passes(DataRequired, Text(d.email), isEmail) && Passes(Email, Text(d.email), isEmail)
    && Passes(DataRequired, Text(d.message), isEmail)
  }

  predicate ResumeFormValid(d: ResumeData)
  {
    Passes(FileRequired, File(d.resume), NoEmail) && Passes(FileAllowed(ResumeExtensions), File(d.resume), NoEmail)
  }

  predicate SiteImageFormValid(d: SiteImageData)
  {
    Passes(FileRequired, File(d.image), NoEmail) && Passes(FileAllowed(ImageExtensions), File(d.image), NoEmail)
  }

  predicate EducationFormValid(d: EducationData)
  {
    && Passes(DataRequired, Text(d.degree), NoEmail) && Passes(Length(-1, 200), Text(d.degree), NoEmail)
    && Passes(DataRequired, Text(d.institution), NoEmail) && Passes(Length(-1, 200), Text(d.institution), NoEmail)
    && Passes(DataRequired, Text(d.startDate), NoEmail) && Passes(Length(-1, 20), Text(d.startDate), NoEmail)
    && Passes(DataRequired, Text(d.endDate), NoEmail) && Passes(Length(-1, 20), Text(d.endDate), NoEmail)
    && Passes(NumberRange(0), Int(d.order), NoEmail)
    && Passes(FileAllowed(ImageExtensions), File(d.image), NoEmail)
  }

  predicate ExperienceFormValid(d: ExperienceData)
  {
    && Passes(DataRequired, Text(d.position), NoEmail) && Passes(Length(-1, 200), Text(d.position), NoEmail)
    && Passes(DataRequired, Text(d.company), NoEmail) && Passes(Length(-1, 200), Text(d.company), NoEmail)
    && Passes(DataRequired, Text(d.startDate), NoEmail) && Passes(Length(-1, 20), Text(d.startDate), NoEmail)
    && Passes(DataRequired, Text(d.endDate), NoEmail) && Passes(Length(-1, 20), Text(d.endDate), NoEmail)
    && Passes(NumberRange(0), Int(d.order), NoEmail)
  }

  predicate ContactInfoFormValid(d: ContactInfoData, isEmail: string -> bool)
  {
    Passes(DataRequired, Text(d.email), isEmail) && Passes(Email, Text(d.email), isEmail)
  }

  // What accepting each form means.

  lemma LoginFormMeaning(d: LoginData, isEmail: string -> bool)
    ensures LoginFormValid(d, isEmail) <==> HasContent(d.email) && isEmail(d.email) && HasContent(d.password)
  {
  }

  lemma RegistrationFormMeaning(d: RegistrationData, isEmail: string -> bool)
    ensures RegistrationFormValid(d, isEmail) <==>
      && HasContent(d.name) && 2 <= |d.name| <= 100
      && HasContent(d.email) && isEmail(d.email)
      && HasContent(d.password) && 6 <= |d.password|
  {
  }

  lemma ProjectFormMeaning(d: ProjectData)
    ensures ProjectFormValid(d) <==>
      && HasContent(d.title) && |d.title| <= 100 && HasContent(d.description)
      && |d.link| <= 200 && OptionalImageOk(d.image)
  {
  }

  /** Skill, certificate and education images are optional but, when
      present, must carry an image extension. */
  lemma OptionalImageForms(s: SkillData, c: CertificateData, e: EducationData)
    ensures SkillFormValid(s) <==> HasContent(s.name) && |s.name| <= 100 && OptionalImageOk(s.image)
    ensures CertificateFormValid(c) <==> HasContent(c.title) && |c.title| <= 100 && OptionalImageOk(c.image)
    ensures EducationFormValid(e) ==> OptionalImageOk(e.image)
    ensures SkillFormValid(s.(image := None)) <==> HasContent(s.name) && |s.name| <= 100
  {
  }

  lemma MessageFormMeaning(d: MessageData, isEmail: string -> bool)
    ensures MessageFormValid(d, isEmail) <==>
      HasContent(d.name) && 2 <= |d.name| <= 100 && HasContent(d.email) && isEmail(d.email) && HasContent(d.message)
  {
  }

  /** The resume is required and must be a PDF; a site image is required
      and must be an image. */
  lemma RequiredFileForms(r: ResumeData, i: SiteImageData)
    ensures ResumeFormValid(r) <==> FilePresent(r.resume) && HasAllowedExtension(r.resume.value.filename, {"pdf"})
    ensures SiteImageFormValid(i) <==> FilePresent(i.image) && HasAllowedExtension(i.image.value.filename, ImageExtensions)
  {
  }

  lemma EducationFormMeaning(d: EducationData)
    ensures EducationFormValid(d) <==>
      && HasContent(d.degree) && |d.degree| <= 200 && HasContent(d.institution) && |d.institution| <= 200
      && HasContent(d.startDate) && |d.startDate| <= 20 && HasContent(d.endDate) && |d.endDate| <= 20
      && 0 <= d.order && OptionalImageOk(d.image)
  {
  }

  lemma ExperienceFormMeaning(d: ExperienceData)
    ensures ExperienceFormValid(d) <==>
      && HasContent(d.position) && |d.position| <= 200 && HasContent(d.company) && |d.company| <= 200
      && HasContent(d.startDate) && |d.startDate| <= 20 && HasContent(d.endDate) && |d.endDate| <= 20
      && 0 <= d.order
  {
  }

  /** `DataRequired` strips the text first: a text made only of white
      space fails however long it is, and a text with any other character
      passes. */
  lemma DataRequiredIsNonBlank(s: string, isEmail: string -> bool)
    ensures (forall i | 0 <= i < |s| :: IsSpace(s[i])) ==> !Passes(DataRequired, Text(s), isEmail)
    ensures (exists i :: 0 <= i < |s| && !IsSpace(s[i])) ==> Passes(DataRequired, Text(s), isEmail)
  {
  }
}
