/** The learner's progress endpoint (app/api/progress/route.ts): GET reads one lesson's
    progress or the dashboard, POST dispatches one of four progress actions. Both act on
    behalf of the session's key only. */
module ProgressRoute {
  import opened Common
  import JsNumber
  import Table
  import Lessons
  import UserProgress
  import Auth
  import Database
  import opened Http

  const LessonIdRequiredMessage: string := "lessonId é obrigatório"
  const InvalidActionMessage: string := "Ação inválida"
  const UpdateFailedMessage: string := "Erro ao atualizar progresso"
  const FetchFailedMessage: string := "Erro ao buscar progresso"

  /** The POST body. `lessonId` is whatever JSON the client sent: the lesson page sends the
      route parameter, a string. `watchTimeSeconds` is an integer when present. */
  datatype PostBody = PostBody(
    lessonId: Option<Json>,
    watchTimeSeconds: Option<int>,
    action: Option<string>,
    notes: Option<string>)

  /** The four progress actions POST can carry out. */
  datatype Action = UpdateWatch(seconds: int) | MarkCompleted | ToggleFavorite | SaveNotes(text: string)

  /** The `if … else if` chain of POST: an action name selects its operation only when the
      field that operation needs is defined. */
  function Dispatch(body: PostBody): (r: Option<Action>)
    ensures r.Some? && r.value.UpdateWatch? <==>
      body.action == Some("updateWatchTime") && body.watchTimeSeconds.Some?
    ensures r.Some? && r.value.UpdateWatch? ==> r.value.seconds == body.watchTimeSeconds.value
    ensures r == Some(MarkCompleted) <==> body.action == Some("markCompleted")
    ensures r == Some(ToggleFavorite) <==> body.action == Some("toggleFavorite")
    ensures r.Some? && r.value.SaveNotes? <==> body.action == Some("saveNotes") && body.notes.Some?
    ensures r.Some? && r.value.SaveNotes? ==> r.value.text == body.notes.value
    ensures r.None? <==>
      body.action !in {Some("markCompleted"), Some("toggleFavorite")}
      && (body.action == Some("updateWatchTime") ==> body.watchTimeSeconds.None?)
      && (body.action == Some("saveNotes") ==> body.notes.None?)
  {
    if body.action == Some("updateWatchTime") && body.watchTimeSeconds.Some? then
      Some(UpdateWatch(body.watchTimeSeconds.value))
    else if body.action == Some("markCompleted") then Some(MarkCompleted)
    else if body.action == Some("toggleFavorite") then Some(ToggleFavorite)
    else if body.action == Some("saveNotes") && body.notes.Some? then Some(SaveNotes(body.notes.value))
    else None
  }

  /** `Promise.all(ids.map(getLessonById))` followed by `.filter(l => l !== undefined)`:
      the lessons the ids name, deleted ones dropped. */
  function LessonsOf(t: Lessons.LessonTable, ids: seq<int>): (r: seq<Lessons.Lesson>)
    ensures |r| <= |ids|
    ensures forall x :: x in r ==> x in t.rows && x.id in ids
    ensures forall id :: id in ids && LessonById(t, id).Some? ==> LessonById(t, id).value in r
  {
    if |ids| == 0 then []
    else
      var rest := LessonsOf(t, ids[1..]);
      assert forall id :: id in ids ==> id == ids[0] || id in ids[1..];
      match LessonById(t, ids[0])
      case None => rest
      case Some(l) => [l] + rest
  }

  /** In a valid table the lessons returned are exactly the stored lessons whose id is listed. */
  lemma LessonsOfExact(t: Lessons.LessonTable, ids: seq<int>)
    requires t.Valid()
    ensures forall x :: x in LessonsOf(t, ids) <==> x in t.rows && x.id in ids
  {
    forall x | x in t.rows && x.id in ids
      ensures x in LessonsOf(t, ids)
    {
      var i :| 0 <= i < |t.rows| && t.rows[i] == x;
      Lessons.ValidIdsUnique(t);
      Table.FindUnique(t.rows, Lessons.IdOf, i);
    }
  }

  /** `getProgress(session.key, parseInt(lessonId))`: the caller's row for the parsed id, or
      `undefined` (the inner `None`). The database client refuses to bind NaN and throws
      before any SQL runs: the outer `None`. */
  function ProgressFor(t: UserProgress.ProgressTable, u: string, query: string): (r: Option<Option<UserProgress.Progress>>)
    ensures r.None? <==> JsNumber.ParseInt(query).None?
    ensures r.Some? && r.value.Some? ==>
      r.value.value in t.rows && r.value.value.userKey == u && JsNumber.ParseInt(query) == Some(r.value.value.lessonId)
    ensures r.Some? && r.value.None? ==> UserProgress.GetProgress(t, u, JsNumber.ParseInt(query).value).None?
  {
    match JsNumber.ParseInt(query)
    case None => None
    case Some(l) => Some(UserProgress.GetProgress(t, u, l))
  }

  /** GET: 403 without a session; with a non-empty `lessonId` the caller's own progress row
      for it (or null) with their point total and level, or 500 when the id is NaN, which the
      database client refuses; otherwise the dashboard with the caller's favourite and recent
      lessons, deleted lessons dropped. Nothing is written. */
  function Get(ctx: Context, db: Database.Db, lessonId: Option<string>): (r: Outcome)
    ensures r.db == db && r.jar == JarAfter(ctx, db)
    ensures r.response.status == 403 <==> SessionOf(ctx, db).None?
    ensures r.response.status in {200, 403, 500}
    ensures r.response.status == 403 ==> r.response == Denied(Auth.Unauthorized)
    ensures r.response.status == 500 <==>
      SessionOf(ctx, db).Some? && Truthy(lessonId) && JsNumber.ParseInt(lessonId.value).None?
    ensures r.response.status == 500 ==> r.response.body == ErrorBody(FetchFailedMessage)
    ensures SessionOf(ctx, db).Some? ==>
      var u := SessionOf(ctx, db).value.key;
      var points := UserProgress.SumPoints(db.progress.rows, u);
      && (Truthy(lessonId) && JsNumber.ParseInt(lessonId.value).Some? <==> r.response.body.ProgressBody?)
      && (!Truthy(lessonId) <==> r.response.body.DashboardBody?)
      && (r.response.body.ProgressBody? ==>
            && r.response.status == 200
            && r.response.body.totalPoints == points
            && r.response.body.level == UserProgress.GetUserLevel(points)
            && r.response.body.progress == UserProgress.GetProgress(db.progress, u, JsNumber.ParseInt(lessonId.value).value))
      && (r.response.body.DashboardBody? ==>
            && r.response.status == 200
            && r.response.body.totalPoints == points
            && r.response.body.level == UserProgress.GetUserLevel(points)
            && |r.response.body.recent| <= UserProgress.DefaultRecentLimit
            && (forall x :: x in r.response.body.recent ==>
                  x in db.lessons.rows && UserProgress.GetProgress(db.progress, u, x.id).Some?)
            && (db.Valid() ==> forall x :: x in r.response.body.recent <==>
                  x in db.lessons.rows && x.id in UserProgress.GetRecentLessons(db.progress, u, UserProgress.DefaultRecentLimit))
            && (db.Valid() ==> forall x :: x in r.response.body.favorites <==>
                  && x in db.lessons.rows
                  && UserProgress.GetProgress(db.progress, u, x.id).Some?
                  && UserProgress.GetProgress(db.progress, u, x.id).value.favorited))
  {
    var (auth, jar) := Auth.RequireAuth(ctx.env, db.keys, ctx.jar, ctx.now);
    if auth.Failure? then Outcome(Denied(auth.error), db, jar)
    else
      var u := auth.value.key;
      var totalPoints := UserProgress.GetUserPoints(db.progress, u);
      var level := UserProgress.GetUserLevel(totalPoints);
      if Truthy(lessonId) then
        match ProgressFor(db.progress, u, lessonId.value)
        case None => Outcome(Response(500, ErrorBody(FetchFailedMessage)), db, jar)
        case Some(progress) => Outcome(Ok(ProgressBody(progress, totalPoints, level)), db, jar)
      else
        var favoriteIds := UserProgress.GetFavoriteLessons(db.progress, u);
        var recentIds := UserProgress.GetRecentLessons(db.progress, u, UserProgress.DefaultRecentLimit);
        var favorites := LessonsOf(db.lessons, favoriteIds);
        var recent := LessonsOf(db.lessons, recentIds);
        assert forall x :: x in recent ==> UserProgress.GetProgress(db.progress, u, x.id).Some? by {
          forall x | x in recent
            ensures UserProgress.GetProgress(db.progress, u, x.id).Some?
          {
            RecentRowExists(db.progress, u, recentIds, x.id);
          }
        }
        assert db.Valid() ==> forall x :: x in recent <==> x in db.lessons.rows && x.id in recentIds by {
          if db.Valid() {
            LessonsOfExact(db.lessons, recentIds);
          }
        }
        assert db.Valid() ==> forall x :: x in favorites <==>
          x in db.lessons.rows && UserProgress.GetProgress(db.progress, u, x.id).Some?
          && UserProgress.GetProgress(db.progress, u, x.id).value.favorited by {
          if db.Valid() {
            LessonsOfExact(db.lessons, favoriteIds);
          }
        }
        Outcome(Ok(DashboardBody(totalPoints, level, favorites, recent)), db, jar)
  }

  /** Every recent id names a row of the user, also in a table that is not valid. */
  lemma RecentRowExists(t: UserProgress.ProgressTable, u: string, ids: seq<int>, l: int)
    requires ids == UserProgress.GetRecentLessons(t, u, UserProgress.DefaultRecentLimit)
    requires l in ids
    ensures UserProgress.GetProgress(t, u, l).Some?
  {
    var s := UserProgress.ByRecency(t, UserProgress.OfUser(u));
    var n := if |s| <= UserProgress.DefaultRecentLimit then |s| else UserProgress.DefaultRecentLimit;
    assert ids == UserProgress.LessonIds(s[..n]);
    var i :| 0 <= i < |ids| && ids[i] == l;
    var p := s[i];
    assert p in multiset(Table.Filter(t.rows, UserProgress.OfUser(u)));
    assert p in t.rows && p.userKey == u && p.lessonId == l;
  }

  /** Carries out one action on the row (u, l): `markCompleted` answers 404 when the lesson
      does not exist and 500 when the row does not, and leaves the database as it was then;
      every other case answers success. Only the row (u, l) can change. */
  function Perform(db: Database.Db, u: string, l: int, a: Action, now: int): (r: (Response, Database.Db))
    ensures r.0.status in {200, 404, 500}
    ensures r.0.status != 200 ==> r.1 == db
    ensures r.1.keys == db.keys && r.1.lessons == db.lessons && r.1.config == db.config
    ensures db.Valid() ==> r.1.Valid()
    ensures forall u', l' :: (u', l') != (u, l) ==>
      UserProgress.GetProgress(r.1.progress, u', l') == UserProgress.GetProgress(db.progress, u', l')
    ensures r.0.status == 404 <==> a == MarkCompleted && LessonById(db.lessons, l).None?
    ensures r.0.status == 500 <==>
      a == MarkCompleted && LessonById(db.lessons, l).Some? && UserProgress.GetProgress(db.progress, u, l).None?
    ensures r.0.status == 200 ==> r.0.body == SuccessBody && UserProgress.GetProgress(r.1.progress, u, l).Some?
    ensures r.0.status == 404 ==> r.0.body == ErrorBody(LessonNotFoundMessage)
    ensures r.0.status == 500 ==> r.0.body == ErrorBody(UpdateFailedMessage)
    ensures a.UpdateWatch? ==> UserProgress.GetProgress(r.1.progress, u, l).value.watchTimeSeconds == a.seconds
    ensures a.SaveNotes? ==> UserProgress.GetProgress(r.1.progress, u, l).value.notes == Some(a.text)
    ensures a == ToggleFavorite ==>
      var before := UserProgress.GetProgress(db.progress, u, l);
      UserProgress.GetProgress(r.1.progress, u, l).value.favorited == !(before.Some? && before.value.favorited)
    ensures a == MarkCompleted && r.0.status == 200 ==>
      var lesson := LessonById(db.lessons, l).value;
      var before := UserProgress.GetProgress(db.progress, u, l).value;
      var after := UserProgress.GetProgress(r.1.progress, u, l).value;
      && after.completed && after.watchTimeSeconds == before.watchTimeSeconds
      && (before.watchTimeSeconds >= 60 * lesson.minWatchTime ==> after.pointsEarned == lesson.points)
      && (before.watchTimeSeconds < 60 * lesson.minWatchTime ==> after.pointsEarned == 0)
  {
    match a
    case UpdateWatch(seconds) =>
      (Ok(SuccessBody), db.(progress := UserProgress.UpdateWatchTime(db.progress, u, l, seconds, now)))
    case MarkCompleted => Complete(db, u, l, now)
    case ToggleFavorite =>
      (Ok(SuccessBody), db.(progress := UserProgress.ToggleFavorite(db.progress, u, l, now)))
    case SaveNotes(text) =>
      (Ok(SuccessBody), db.(progress := UserProgress.SaveNotes(db.progress, u, l, text, now)))
  }

  /** The `markCompleted` branch: the lesson's own `points` and `min_watch_time` are what
      `markAsCompleted` receives. */
  function Complete(db: Database.Db, u: string, l: int, now: int): (r: (Response, Database.Db))
    ensures r.0.status in {200, 404, 500}
    ensures r.0.status != 200 ==> r.1 == db
    ensures r.1.keys == db.keys && r.1.lessons == db.lessons && r.1.config == db.config
    ensures db.Valid() ==> r.1.Valid()
    ensures forall u', l' :: (u', l') != (u, l) ==>
      UserProgress.GetProgress(r.1.progress, u', l') == UserProgress.GetProgress(db.progress, u', l')
    ensures r.0.status == 404 <==> LessonById(db.lessons, l).None?
    ensures r.0.status == 500 <==> LessonById(db.lessons, l).Some? && UserProgress.GetProgress(db.progress, u, l).None?
    ensures r.0.status == 200 ==> r.0.body == SuccessBody
    ensures r.0.status == 404 ==> r.0.body == ErrorBody(LessonNotFoundMessage)
    ensures r.0.status == 500 ==> r.0.body == ErrorBody(UpdateFailedMessage)
    ensures r.0.status == 200 ==>
      var lesson := LessonById(db.lessons, l).value;
      var before := UserProgress.GetProgress(db.progress, u, l).value;
      UserProgress.GetProgress(r.1.progress, u, l) == Some(before.(
        completed := true,
        pointsEarned := if before.watchTimeSeconds >= 60 * lesson.minWatchTime then lesson.points else 0,
        completedAt := Some(now)))
  {
    match LessonById(db.lessons, l)
    case None => (Response(404, ErrorBody(LessonNotFoundMessage)), db)
    case Some(lesson) =>
      match UserProgress.MarkAsCompleted(db.progress, u, l, lesson.points, lesson.minWatchTime, now)
      case Failure(_) => (Response(500, ErrorBody(UpdateFailedMessage)), db)
      case Success(progress) => (Ok(SuccessBody), db.(progress := progress))
  }

  /** `parseInt(lessonId)`: a string is parsed as written ("7abc" is 7, "abc" is NaN); a
      number is first written out by `toString`, which gives it back; any other value reads
      as text with no leading digit and gives NaN, here `None`. */
  function LessonIdNumber(v: Json): (r: Option<int>)
    ensures v.JString? ==> r == JsNumber.ParseInt(v.s)
    ensures v.JNumber? ==> r == Some(v.n)
    ensures !v.JString? && !v.JNumber? ==> r.None?
  {
    match v
    case JString(s) => JsNumber.ParseInt(s)
    case JNumber(n) =>
      JsNumber.DecimalRoundTrip(n);
      JsNumber.ParseInt(JsNumber.NumberToString(n))
    case _ => None
  }

  /** POST: 403 without a session; 400 when `lessonId` is falsy or no action applies;
      otherwise the dispatched action on the caller's row for `parseInt(lessonId)` (see
      `Perform`). Every action first reads the row through `getProgress` or `getLessonById`,
      so a NaN id, which the database client refuses to bind, throws before anything is
      written and the catch answers 500. Every refusal leaves the database as it was. */
  function Post(ctx: Context, db: Database.Db, body: PostBody): (r: Outcome)
    ensures r.jar == JarAfter(ctx, db)
    ensures r.response.status in {200, 400, 403, 404, 500}
    ensures r.response.status != 200 ==> r.db == db
    ensures r.db.keys == db.keys && r.db.lessons == db.lessons && r.db.config == db.config
    ensures db.Valid() ==> r.db.Valid()
    ensures r.response.status == 403 <==> SessionOf(ctx, db).None?
    ensures r.response.status == 403 ==> r.response == Denied(Auth.Unauthorized)
    ensures SessionOf(ctx, db).Some? ==>
      && (!JsTruthy(body.lessonId) ==> r.response == BadRequest(LessonIdRequiredMessage))
      && (JsTruthy(body.lessonId) && Dispatch(body).None? ==> r.response == BadRequest(InvalidActionMessage))
      && (JsTruthy(body.lessonId) && Dispatch(body).Some? ==>
            var id := LessonIdNumber(body.lessonId.value);
            && (id.Some? ==>
                  (r.response, r.db) == Perform(db, SessionOf(ctx, db).value.key, id.value, Dispatch(body).value, ctx.now))
            && (id.None? ==> r.response == Response(500, ErrorBody(UpdateFailedMessage))))
  {
    var (auth, jar) := Auth.RequireAuth(ctx.env, db.keys, ctx.jar, ctx.now);
    if auth.Failure? then Outcome(Denied(auth.error), db, jar)
    else if !JsTruthy(body.lessonId) then Outcome(BadRequest(LessonIdRequiredMessage), db, jar)
    else
      match Dispatch(body)
      case None => Outcome(BadRequest(InvalidActionMessage), db, jar)
      case Some(a) =>
        match LessonIdNumber(body.lessonId.value)
        case None => Outcome(Response(500, ErrorBody(UpdateFailedMessage)), db, jar)
        case Some(l) =>
          var (response, db') := Perform(db, auth.value.key, l, a, ctx.now);
          Outcome(response, db', jar)
  }

  /** What the lesson page's string ids mean to POST: "0" is a truthy id naming lesson 0,
      trailing text after the digits is ignored, and text without a leading digit is NaN. */
  lemma StringLessonIds()
    ensures JsTruthy(Some(JString("0"))) && LessonIdNumber(JString("0")) == Some(0)
    ensures LessonIdNumber(JString("7abc")) == Some(7)
    ensures LessonIdNumber(JString("abc")).None?
  {
    ZeroId();
    TrailingTextIgnored();
    NoDigitIsNaN();
  }

  /** An id string without a leading digit, such as "abc", fails every action with 500 and
      changes nothing, whichever action the body names. */
  lemma UnparsedIdRefused(ctx: Context, db: Database.Db, body: PostBody)
    requires SessionOf(ctx, db).Some? && Dispatch(body).Some?
    ensures Post(ctx, db, body.(lessonId := Some(JString("abc")))) ==
      Outcome(Response(500, ErrorBody(UpdateFailedMessage)), db, JarAfter(ctx, db))
  {
    NoDigitIsNaN();
    assert Dispatch(body.(lessonId := Some(JString("abc")))) == Dispatch(body);
  }

  lemma ZeroId()
    ensures LessonIdNumber(JString("0")) == Some(0)
  {
    assert TrimStart("0") == "0";
    assert JsNumber.Scan("0") == JsNumber.Numeral(false, 10, "0");
    assert JsNumber.DigitRun("0", 10) == 1;
  }

  lemma TrailingTextIgnored()
    ensures LessonIdNumber(JString("7abc")) == Some(7)
  {
    assert TrimStart("7abc") == "7abc";
    assert JsNumber.Scan("7abc") == JsNumber.Numeral(false, 10, "7abc");
    assert JsNumber.DigitValue('a') == 10;
    assert JsNumber.DigitRun("7abc", 10) == 1;
    assert "7abc"[..1] == "7";
  }

  lemma NoDigitIsNaN()
    ensures LessonIdNumber(JString("abc")).None?
  {
    assert TrimStart("abc") == "abc";
    assert JsNumber.Scan("abc") == JsNumber.Numeral(false, 10, "abc");
    assert JsNumber.DigitValue('a') == 10;
  }

  /** Watching a lesson and then completing it, both through the route and with the id
      string the lesson page sends, gives the lesson's points when the reported watch time
      is long enough, whatever the row held before. */
  lemma WatchThenComplete(ctx: Context, db: Database.Db, id: string, l: int, seconds: int)
    requires SessionOf(ctx, db).Some? && id != "" && JsNumber.ParseInt(id) == Some(l)
    requires LessonById(db.lessons, l).Some?
    requires seconds >= 60 * LessonById(db.lessons, l).value.minWatchTime
    ensures var u := SessionOf(ctx, db).value.key;
      var watched := Post(ctx, db, PostBody(Some(JString(id)), Some(seconds), Some("updateWatchTime"), None));
      var ctx' := ctx.(jar := watched.jar);
      var done := Post(ctx', watched.db, PostBody(Some(JString(id)), None, Some("markCompleted"), None));
      && watched.response.status == 200
      && done.response.status == 200
      && UserProgress.GetProgress(done.db.progress, u, l).value.pointsEarned == LessonById(db.lessons, l).value.points
  {
    var u := SessionOf(ctx, db).value.key;
    var watched := Post(ctx, db, PostBody(Some(JString(id)), Some(seconds), Some("updateWatchTime"), None));
    assert watched.jar == ctx.jar;
    assert watched.db.keys == db.keys;
  }
}
