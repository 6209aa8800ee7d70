/** What the route handlers under app/api/ share: the request context, the JSON values a
    body field can hold, the responses, and the mapping of the auth errors to 403. */
module Http {
  import opened Common
  import AccessKeys
  import Lessons
  import UserProgress
  import SiteConfig
  import Auth
  import Database

  const NotAuthorizedMessage: string := "Não autorizado"
  const IdRequiredMessage: string := "ID é obrigatório"
  const LessonNotFoundMessage: string := "Aula não encontrada"

  /** A JSON value in a request body. Objects and arrays are `JComposite`: they are truthy and
      are not strings. Numbers are integers. */
  datatype Json = JNull | JBool(b: bool) | JNumber(n: int) | JString(s: string) | JComposite

  /** JavaScript truthiness of a body field; `None` is `undefined`. */
  predicate JsTruthy(v: Option<Json>) {
    match v
    case None => false
    case Some(JNull) => false
    case Some(JBool(b)) => b
    case Some(JNumber(n)) => n != 0
    case Some(JString(s)) => s != ""
    case Some(JComposite) => true
  }

  /** The JSON a handler answers with. */
  datatype Body =
    | ErrorBody(error: string)
    | SuccessBody
    | LoginBody(redirectUrl: string, isAdmin: AccessKeys.AdminFlag)
    | KeysBody(keys: seq<AccessKeys.AccessKey>)
    | KeyBody(key: AccessKeys.AccessKey)
    | LessonsBody(lessons: seq<Lessons.Lesson>)
    | LessonBody(lesson: Lessons.Lesson)
    | OverlayBody(settings: SiteConfig.OverlaySettings)
    | ProgressBody(progress: Option<UserProgress.Progress>, totalPoints: int, level: string)
    | DashboardBody(totalPoints: int, level: string, favorites: seq<Lessons.Lesson>, recent: seq<Lessons.Lesson>)

  datatype Response = Response(status: int, body: Body)

  /** What the handler sees besides its body: `ADMIN_KEY`, the session cookie and the clock. */
  datatype Context = Context(env: Option<string>, jar: Auth.Jar, now: int)

  /** A handled request: the response, the database after it and the cookie after it. */
  datatype Outcome = Outcome(response: Response, db: Database.Db, jar: Auth.Jar)

  /** The session `getSession` finds for this request. */
  function SessionOf(ctx: Context, db: Database.Db): Option<Auth.Session> {
    Auth.GetSession(ctx.env, db.keys, ctx.jar, ctx.now).0
  }

  /** The cookie after `getSession`: cleared when it names a key that no longer admits. */
  function JarAfter(ctx: Context, db: Database.Db): Auth.Jar {
    Auth.GetSession(ctx.env, db.keys, ctx.jar, ctx.now).1
  }

  /** What `requireAdmin` decides for this request. */
  function AdminOf(ctx: Context, db: Database.Db): Result<Auth.Session, Auth.AuthError> {
    Auth.RequireAdmin(ctx.env, db.keys, ctx.jar, ctx.now).0
  }

  /** The catch blocks of the protected handlers: both auth errors are answered alike. */
  function Denied(e: Auth.AuthError): (r: Response)
    ensures r.status == 403 && r.body == ErrorBody(NotAuthorizedMessage)
  {
    Response(403, ErrorBody(NotAuthorizedMessage))
  }

  function Ok(body: Body): Response { Response(200, body) }

  function BadRequest(message: string): Response { Response(400, ErrorBody(message)) }

  /** `getLessonById(n)` for any integer: a negative id matches no row. */
  function LessonById(t: Lessons.LessonTable, id: int): (r: Option<Lessons.Lesson>)
    ensures r.Some? ==> r.value in t.rows && r.value.id == id
    ensures r.None? <==> forall i :: 0 <= i < |t.rows| ==> t.rows[i].id != id
  {
    if id < 0 then None else Lessons.GetLessonById(t, id)
  }
}
