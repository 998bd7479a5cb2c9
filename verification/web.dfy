/**
 What a request handler returns, abstracted from templates and flash
 text: where it redirects, which page it renders, the notice it flashes,
 and the store and session it leaves behind.
 */
module Web {
  import opened Common
  import opened Models

  /** The five content tables edited through the same form/delete routes. */
  datatype ContentKind = Projects | Skills | Certificates | EducationItems | ExperienceItems

  /** Redirect destinations, as `url_for` endpoint names; `Url` is a raw
      `next` argument. */
  datatype Target =
    | Home
    | LoginPage(next: Option<string>)
    | AdminDashboard
    | AdminImages
    | AdminResume
    | AdminContact
    | AdminList(kind: ContentKind)
    | ContactPage
    | Url(path: string)

  /** The flashed message, by meaning rather than wording. */
  datatype Notice =
    | Quiet
    | LoginPrompt
    | AccessDenied
    | LoginSuccess
    | LoginFailed
    | MissingCredentials
    | InvalidCredentials
    | Registered
    | LoggedOut
    | Saved
    | Deleted
    | InvalidImageType
    | ImageNotFound
    | ResumeUploaded
    | ResumeNotFound
    | MessageSent
    | ContactUpdated

  datatype Response =
    | Redirect(target: Target, notice: Notice)
    | Render(notice: Notice)
    | Unauthorized401(challenge: string, notice: Notice)
    | NotFound404
    | SendFile(filename: string, downloadName: string)

  /** The state a request leaves: the store, the session's user id (a bare
      number, as Flask-Login keeps it) and the response. */
  datatype Outcome = Outcome(store: Store, session: Option<nat>, response: Response)
}
