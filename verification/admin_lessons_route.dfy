/** The administrator's lesson endpoint (app/api/admin/lessons/route.ts): read, create,
    patch and delete lessons. Every handler first runs `requireAdmin`. Neither POST nor
    PATCH forwards `points` or `min_watch_time`. */
module AdminLessonsRoute {
  import opened Common
  import JsNumber
  import Lessons
  import Auth
  import Database
  import opened Http

  const FieldsRequiredMessage: string := "Título, ID do vídeo e ordem são obrigatórios"
  const FetchFailedMessage: string := "Erro ao buscar aulas"

  /** The lesson fields of a POST or PATCH body; `order_num`, `points` and `min_watch_time`
      are integers when present. */
  datatype LessonFields = LessonFields(
    title: Option<string>,
    videoId: Option<string>,
    coverImage: Option<string>,
    sealDifficulty: Option<string>,
    sealTimeValue: Option<string>,
    sealTimeColor: Option<string>,
    description: Option<string>,
    materials: Option<string>,
    steps: Option<string>,
    orderNum: Option<int>,
    points: Option<int>,
    minWatchTime: Option<int>)

  /** POST's own check: `!title || !video_id || order_num === undefined` refuses. */
  predicate CreateFieldsGiven(b: LessonFields) {
    Truthy(b.title) && Truthy(b.videoId) && b.orderNum.Some?
  }

  /** The `CreateLessonData` POST builds: the ten listed fields, no reward fields. */
  function NewLessonOf(b: LessonFields): (d: Lessons.NewLesson)
    requires CreateFieldsGiven(b)
    ensures d.points.None? && d.minWatchTime.None?
    ensures d.title == b.title.value && d.videoId == b.videoId.value && d.orderNum == b.orderNum.value
    ensures d.coverImage == b.coverImage
    ensures d.sealDifficulty == b.sealDifficulty && d.sealTimeValue == b.sealTimeValue && d.sealTimeColor == b.sealTimeColor
    ensures d.description == b.description && d.materials == b.materials && d.steps == b.steps
  {
    Lessons.NewLesson(
      b.title.value, b.videoId.value, b.coverImage, b.sealDifficulty, b.sealTimeValue,
      b.sealTimeColor, b.description, b.materials, b.steps, b.orderNum.value, None, None)
  }

  /** The `UpdateLessonData` PATCH builds: each of the ten listed fields when defined, and
      never the reward fields. */
  function PatchOf(b: LessonFields): (p: Lessons.LessonPatch)
    ensures p.points.None? && p.minWatchTime.None?
    ensures p.title == b.title && p.videoId == b.videoId && p.orderNum == b.orderNum
    ensures p.coverImage == b.coverImage
    ensures p.sealDifficulty == b.sealDifficulty && p.sealTimeValue == b.sealTimeValue && p.sealTimeColor == b.sealTimeColor
    ensures p.description == b.description && p.materials == b.materials && p.steps == b.steps
  {
    Lessons.LessonPatch(
      b.title, b.videoId, b.coverImage, b.sealDifficulty, b.sealTimeValue,
      b.sealTimeColor, b.description, b.materials, b.steps, b.orderNum, None, None)
  }

  /** GET: 403 for a non-administrator; with a non-empty `id` that lesson or 404, or 500 when
      the id parses to NaN, which the database client refuses to bind; otherwise every
      lesson in `order_num` order. */
  function Get(ctx: Context, db: Database.Db, id: Option<string>): (r: Outcome)
    ensures r.db == db && r.jar == JarAfter(ctx, db)
    ensures r.response.status in {200, 403, 404, 500}
    ensures r.response.status == 403 <==> AdminOf(ctx, db).Failure?
    ensures r.response.status == 403 ==> r.response.body == ErrorBody(NotAuthorizedMessage)
    ensures AdminOf(ctx, db).Success? && Truthy(id) ==>
      var n := JsNumber.ParseInt(id.value);
      && (r.response.status == 500 <==> n.None?)
      && (r.response.status == 500 ==> r.response.body == ErrorBody(FetchFailedMessage))
      && (r.response.status == 404 <==> n.Some? && LessonById(db.lessons, n.value).None?)
      && (r.response.status == 404 ==> r.response.body == ErrorBody(LessonNotFoundMessage))
      && (r.response.status == 200 ==>
            r.response.body.LessonBody? && r.response.body.lesson in db.lessons.rows
            && Some(r.response.body.lesson.id as int) == n)
    ensures AdminOf(ctx, db).Success? && !Truthy(id) ==>
      && r.response.status == 200 && r.response.body.LessonsBody?
      && multiset(r.response.body.lessons) == multiset(db.lessons.rows)
      && forall i, j :: 0 <= i < j < |r.response.body.lessons| ==>
           r.response.body.lessons[i].orderNum <= r.response.body.lessons[j].orderNum
  {
    var (auth, jar) := Auth.RequireAdmin(ctx.env, db.keys, ctx.jar, ctx.now);
    if auth.Failure? then Outcome(Denied(auth.error), db, jar)
    else if Truthy(id) then
      match JsNumber.ParseInt(id.value)
      case None => Outcome(Response(500, ErrorBody(FetchFailedMessage)), db, jar)
      case Some(n) =>
        match LessonById(db.lessons, n)
        case None => Outcome(Response(404, ErrorBody(LessonNotFoundMessage)), db, jar)
        case Some(lesson) => Outcome(Ok(LessonBody(lesson)), db, jar)
    else Outcome(Ok(LessonsBody(Lessons.GetAllLessons(db.lessons))), db, jar)
  }

  /** POST: 403 for a non-administrator; 400 without a title, a video id or an order;
      otherwise 201 with the new lesson, which always gets the default reward (10 points,
      10 minutes) whatever the body says, and is the only change to the database. */
  function Post(ctx: Context, db: Database.Db, b: LessonFields): (r: Outcome)
    ensures r.jar == JarAfter(ctx, db)
    ensures r.response.status in {201, 400, 403}
    ensures r.response.status != 201 ==> r.db == db
    ensures r.db.keys == db.keys && r.db.progress == db.progress && r.db.config == db.config
    ensures db.Valid() ==> r.db.Valid()
    ensures r.response.status == 403 <==> AdminOf(ctx, db).Failure?
    ensures r.response.status == 403 ==> r.response.body == ErrorBody(NotAuthorizedMessage)
    ensures AdminOf(ctx, db).Success? ==>
      && (r.response.status == 400 <==> !CreateFieldsGiven(b))
      && (r.response.status == 400 ==> r.response.body == ErrorBody(FieldsRequiredMessage))
      && (r.response.status == 201 ==>
            && r.response.body.LessonBody?
            && var l := r.response.body.lesson;
            && l.title == b.title.value && l.videoId == b.videoId.value && l.orderNum == b.orderNum.value
            && l.coverImage == OrNull(b.coverImage)
            && l.sealDifficulty == OrNull(b.sealDifficulty) && l.sealTimeValue == OrNull(b.sealTimeValue)
            && l.sealTimeColor == OrNull(b.sealTimeColor)
            && l.description == OrNull(b.description) && l.materials == OrNull(b.materials)
            && l.steps == OrNull(b.steps)
            && l.points == Lessons.DefaultPoints && l.minWatchTime == Lessons.DefaultMinWatchTime
            && l.id == db.lessons.nextId
            && (db.Valid() ==> LessonById(r.db.lessons, l.id) == Some(l))
            && forall id :: id != l.id ==> Lessons.GetLessonById(r.db.lessons, id) == Lessons.GetLessonById(db.lessons, id))
  {
    var (auth, jar) := Auth.RequireAdmin(ctx.env, db.keys, ctx.jar, ctx.now);
    if auth.Failure? then Outcome(Denied(auth.error), db, jar)
    else if !CreateFieldsGiven(b) then Outcome(BadRequest(FieldsRequiredMessage), db, jar)
    else
      var (lessons, lesson) := Lessons.CreateLesson(db.lessons, NewLessonOf(b), ctx.now);
      Outcome(Response(201, LessonBody(lesson)), db.(lessons := lessons), jar)
  }

  /** The reward fields of a POST body make no difference at all. */
  lemma PostIgnoresReward(ctx: Context, db: Database.Db, b: LessonFields, points: Option<int>, minWatchTime: Option<int>)
    ensures Post(ctx, db, b.(points := points, minWatchTime := minWatchTime)) == Post(ctx, db, b)
  {
    var b' := b.(points := points, minWatchTime := minWatchTime);
    if CreateFieldsGiven(b) {
      assert NewLessonOf(b') == NewLessonOf(b);
    }
  }

  /** PATCH: 403 for a non-administrator; 400 without a truthy `id`; otherwise the lesson
      with that id takes the defined fields among the ten listed (an unknown id changes
      nothing) and no other lesson changes. */
  function Patch(ctx: Context, db: Database.Db, id: Option<int>, b: LessonFields): (r: Outcome)
    ensures r.jar == JarAfter(ctx, db)
    ensures r.response.status in {200, 400, 403}
    ensures r.response.status != 200 ==> r.db == db
    ensures r.db.keys == db.keys && r.db.progress == db.progress && r.db.config == db.config
    ensures db.Valid() ==> r.db.Valid()
    ensures r.response.status == 403 <==> AdminOf(ctx, db).Failure?
    ensures r.response.status == 403 ==> r.response.body == ErrorBody(NotAuthorizedMessage)
    ensures AdminOf(ctx, db).Success? ==>
      && (r.response.status == 400 <==> !TruthyNumber(id))
      && (r.response.status == 400 ==> r.response.body == ErrorBody(IdRequiredMessage))
      && (r.response.status == 200 ==>
            && r.response.body == SuccessBody
            && LessonById(r.db.lessons, id.value) ==
                 (match LessonById(db.lessons, id.value) case Some(l) => Some(Lessons.ApplyPatch(l, PatchOf(b))) case None => None)
            && forall id' :: id' != id.value ==> LessonById(r.db.lessons, id') == LessonById(db.lessons, id'))
  {
    var (auth, jar) := Auth.RequireAdmin(ctx.env, db.keys, ctx.jar, ctx.now);
    if auth.Failure? then Outcome(Denied(auth.error), db, jar)
    else if !TruthyNumber(id) then Outcome(BadRequest(IdRequiredMessage), db, jar)
    else if id.value < 0 then Outcome(Ok(SuccessBody), db, jar)
    else Outcome(Ok(SuccessBody), db.(lessons := Lessons.UpdateLesson(db.lessons, id.value, PatchOf(b))), jar)
  }

  /** No PATCH changes a lesson's reward: `points` and `min_watch_time` of every lesson
      stay as they were, whatever the body holds. */
  lemma PatchKeepsReward(ctx: Context, db: Database.Db, id: Option<int>, b: LessonFields, n: int)
    requires LessonById(db.lessons, n).Some?
    ensures var after := LessonById(Patch(ctx, db, id, b).db.lessons, n);
      && after.Some?
      && after.value.points == LessonById(db.lessons, n).value.points
      && after.value.minWatchTime == LessonById(db.lessons, n).value.minWatchTime
  {
  }

  /** DELETE: 403 for a non-administrator; 400 without a truthy `id`; otherwise that lesson
      is gone (an unknown id changes nothing). Progress rows that name it stay. */
  function Delete(ctx: Context, db: Database.Db, id: Option<int>): (r: Outcome)
    ensures r.jar == JarAfter(ctx, db)
    ensures r.response.status in {200, 400, 403}
    ensures r.response.status != 200 ==> r.db == db
    ensures r.db.keys == db.keys && r.db.progress == db.progress && r.db.config == db.config
    ensures db.Valid() ==> r.db.Valid()
    ensures r.response.status == 403 <==> AdminOf(ctx, db).Failure?
    ensures r.response.status == 403 ==> r.response.body == ErrorBody(NotAuthorizedMessage)
    ensures AdminOf(ctx, db).Success? ==>
      && (r.response.status == 400 <==> !TruthyNumber(id))
      && (r.response.status == 400 ==> r.response.body == ErrorBody(IdRequiredMessage))
      && (r.response.status == 200 ==>
            && r.response.body == SuccessBody
            && LessonById(r.db.lessons, id.value).None?
            && forall id' :: id' != id.value ==> LessonById(r.db.lessons, id') == LessonById(db.lessons, id'))
  {
    var (auth, jar) := Auth.RequireAdmin(ctx.env, db.keys, ctx.jar, ctx.now);
    if auth.Failure? then Outcome(Denied(auth.error), db, jar)
    else if !TruthyNumber(id) then Outcome(BadRequest(IdRequiredMessage), db, jar)
    else if id.value < 0 then Outcome(Ok(SuccessBody), db, jar)
    else Outcome(Ok(SuccessBody), db.(lessons := Lessons.DeleteLesson(db.lessons, id.value)), jar)
  }
}
