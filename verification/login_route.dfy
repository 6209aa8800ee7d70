/** The login endpoint (app/api/auth/login/route.ts): a key that is found and active opens
    a session and sends the user to the admin area or to the lessons. */
module LoginRoute {
  import opened Common
  import AccessKeys
  import Auth
  import SessionCodec
  import Database
  import opened Http

  const KeyRequiredMessage: string := "Chave é obrigatória"
  const InvalidKeyMessage: string := "Chave inválida ou desativada. Verifique com o suporte."
  const AdminHome: string := "/admin"
  const LessonsHome: string := "/aulas"

  /** The body's `key` passes `!key || typeof key !== 'string'` only as a non-empty string. */
  predicate KeyGiven(key: Option<Json>) {
    key.Some? && key.value.JString? && key.value.s != ""
  }

  /** POST: 400 unless `key` is a non-empty string; the trimmed key is looked up, and 401
      (one message for both cases) when it is unknown or inactive; otherwise a session with
      the found key and its `is_admin` as found (the stored 1 or 0, or the `ADMIN_KEY`
      record's `true`) is set and answered, and the redirect is '/admin' exactly for an
      administrator key. The database never changes and only success touches the cookie. */
  function Post(ctx: Context, db: Database.Db, key: Option<Json>): (r: Outcome)
    ensures r.db == db
    ensures r.response.status in {200, 400, 401}
    ensures r.response.status != 200 ==> r.jar == ctx.jar
    ensures r.response.status == 400 <==> !KeyGiven(key)
    ensures r.response.status == 400 ==> r.response.body == ErrorBody(KeyRequiredMessage)
    ensures r.response.status == 401 ==> r.response.body == ErrorBody(InvalidKeyMessage)
    ensures KeyGiven(key) ==>
      var k := Trim(key.value.s);
      var a := AccessKeys.FindByKey(ctx.env, db.keys, k, ctx.now);
      && (r.response.status == 200 <==> a.Some? && a.value.isActive)
      && (r.response.status == 200 ==>
            && r.response.body.LoginBody?
            && r.response.body.isAdmin.b == a.value.isAdmin
            && (r.response.body.isAdmin.Boolean? <==> Truthy(ctx.env) && k == ctx.env.value)
            && (r.response.body.redirectUrl == AdminHome <==> a.value.isAdmin)
            && (r.response.body.redirectUrl == LessonsHome <==> !a.value.isAdmin)
            && r.jar.Some? && r.jar.value.maxAge == Auth.SessionMaxAge
            && SessionCodec.Decode(r.jar.value.value) == Some(SessionCodec.SessionObject(k, r.response.body.isAdmin)))
  {
    if !KeyGiven(key) then Outcome(BadRequest(KeyRequiredMessage), db, ctx.jar)
    else
      var k := Trim(key.value.s);
      var accessKey := AccessKeys.FindByKey(ctx.env, db.keys, k, ctx.now);
      if accessKey.None? || !accessKey.value.isActive then
        Outcome(Response(401, ErrorBody(InvalidKeyMessage)), db, ctx.jar)
      else
        var a := accessKey.value;
        var isAdmin := AccessKeys.FoundAdminFlag(ctx.env, k, a);
        var redirectUrl := if a.isAdmin then AdminHome else LessonsHome;
        Outcome(Ok(LoginBody(redirectUrl, isAdmin)), db, Auth.CreateSession(a.key, isAdmin))
  }

  /** A successful login is a working session: the next request with the new cookie passes
      `requireAuth` as the trimmed key with the flag the login answered, and passes
      `requireAdmin` exactly when it was sent to '/admin'. */
  lemma LoginOpensSession(ctx: Context, db: Database.Db, s: string)
    requires Post(ctx, db, Some(JString(s))).response.status == 200
    ensures var out := Post(ctx, db, Some(JString(s)));
      && Auth.RequireAuth(ctx.env, db.keys, out.jar, ctx.now).0
           == Success(Auth.Session(Trim(s), Some(SessionCodec.FlagValue(out.response.body.isAdmin))))
      && (Auth.RequireAdmin(ctx.env, db.keys, out.jar, ctx.now).0.Success? <==> out.response.body.redirectUrl == AdminHome)
  {
    var a := AccessKeys.FindByKey(ctx.env, db.keys, Trim(s), ctx.now).value;
    var f := AccessKeys.FoundAdminFlag(ctx.env, Trim(s), a);
    assert a.key == Trim(s);
    Auth.SessionRoundTrip(ctx.env, db.keys, a.key, f, ctx.now);
    SessionCodec.FlagTruthiness(f);
  }
}
