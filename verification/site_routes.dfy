/** The overlay settings endpoint for administrators (app/api/admin/config/overlay/route.ts)
    and the two public read endpoints (app/api/lessons/route.ts, app/api/config/overlay/route.ts),
    which run without any session check. */
module SiteRoutes {
  import opened Common
  import JsNumber
  import Lessons
  import SiteConfig
  import Auth
  import Database
  import opened Http

  const InvalidDurationMessage: string := "Duração inválida"

  /** The public lesson list: every lesson in `order_num` order, with no session required. */
  function LessonsGet(db: Database.Db): (r: Response)
    ensures r.status == 200 && r.body.LessonsBody?
    ensures multiset(r.body.lessons) == multiset(db.lessons.rows)
    ensures forall i, j :: 0 <= i < j < |r.body.lessons| ==> r.body.lessons[i].orderNum <= r.body.lessons[j].orderNum
  {
    Ok(LessonsBody(Lessons.GetAllLessons(db.lessons)))
  }

  /** The public overlay settings: the stored values, with their defaults. */
  function OverlayGet(db: Database.Db): (r: Response)
    ensures r.status == 200 && r.body.OverlayBody?
    ensures SiteConfig.GetConfig(db.config, SiteConfig.OverlayImageUrlKey).None? ==> r.body.settings.imageUrl == ""
    ensures SiteConfig.GetConfig(db.config, SiteConfig.OverlayImageUrlKey).Some? ==>
      r.body.settings.imageUrl == SiteConfig.GetConfig(db.config, SiteConfig.OverlayImageUrlKey).value
    ensures !Truthy(SiteConfig.GetConfig(db.config, SiteConfig.OverlayDurationKey)) ==> r.body.settings.durationMs == Some(1500)
    ensures Truthy(SiteConfig.GetConfig(db.config, SiteConfig.OverlayDurationKey)) ==>
      r.body.settings.durationMs == JsNumber.ParseInt(SiteConfig.GetConfig(db.config, SiteConfig.OverlayDurationKey).value)
  {
    Ok(OverlayBody(SiteConfig.GetOverlaySettings(db.config)))
  }

  /** The administrator's overlay POST: 403 for a non-administrator; 400 when `durationMs` is
      missing or negative; otherwise both overlay settings are written (a falsy `imageUrl`
      as '') and nothing else changes. */
  function OverlayPost(ctx: Context, db: Database.Db, imageUrl: Option<string>, durationMs: Option<int>): (r: Outcome)
    ensures r.jar == JarAfter(ctx, db)
    ensures r.response.status in {200, 400, 403}
    ensures r.response.status != 200 ==> r.db == db
    ensures r.db.keys == db.keys && r.db.lessons == db.lessons && r.db.progress == db.progress
    ensures db.Valid() ==> r.db.Valid()
    ensures r.response.status == 403 <==> AdminOf(ctx, db).Failure?
    ensures r.response.status == 403 ==> r.response.body == ErrorBody(NotAuthorizedMessage)
    ensures AdminOf(ctx, db).Success? ==>
      && (r.response.status == 400 <==> durationMs.None? || durationMs.value < 0)
      && (r.response.status == 400 ==> r.response.body == ErrorBody(InvalidDurationMessage))
      && (r.response.status == 200 ==>
            && r.response.body == SuccessBody
            && SiteConfig.GetOverlaySettings(r.db.config) == SiteConfig.OverlaySettings(OrElse(imageUrl, ""), durationMs)
            && SiteConfig.OverlayWellFormed(r.db.config)
            && forall k :: k != SiteConfig.OverlayImageUrlKey && k != SiteConfig.OverlayDurationKey ==>
                 SiteConfig.GetConfig(r.db.config, k) == SiteConfig.GetConfig(db.config, k))
  {
    var (auth, jar) := Auth.RequireAdmin(ctx.env, db.keys, ctx.jar, ctx.now);
    if auth.Failure? then Outcome(Denied(auth.error), db, jar)
    else if durationMs.None? || durationMs.value < 0 then Outcome(BadRequest(InvalidDurationMessage), db, jar)
    else
      var config := SiteConfig.SetOverlaySettings(db.config, OrElse(imageUrl, ""), durationMs.value, ctx.now);
      Outcome(Ok(SuccessBody), db.(config := config), jar)
  }

  /** What an administrator saves is what every visitor then reads. */
  lemma OverlayRoundTrip(ctx: Context, db: Database.Db, imageUrl: string, durationMs: int)
    requires AdminOf(ctx, db).Success? && durationMs >= 0
    ensures OverlayGet(OverlayPost(ctx, db, Some(imageUrl), Some(durationMs)).db).body.settings
      == SiteConfig.OverlaySettings(imageUrl, Some(durationMs))
  {
  }
}
