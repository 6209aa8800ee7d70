/** The administrator's access-key endpoint (app/api/admin/keys/route.ts): list, create
    (typed or random), toggle and delete keys. Every handler first runs `requireAdmin`. */
module AdminKeysRoute {
  import opened Common
  import AccessKeys
  import Auth
  import Database
  import opened Http

  const KeyOrRandomRequiredMessage: string := "Chave ou flag random é obrigatória"
  const CreateFailedMessage: string := "Erro ao criar chave. Ela pode já existir."
  const DeleteFailedMessage: string := "Erro ao deletar chave"

  /** The text the DELETE handler looks for in an error message to answer 400. */
  const AdministratorWord: string := "administrador"

  datatype PostBody = PostBody(key: Option<Json>, ownerName: Option<string>, random: Option<Json>)

  /** The key POST settles on: a chosen text, nothing to go on, or a truthy `key` that is
      not a string (its `trim` throws, which the handler answers like a failed insert). */
  datatype KeyChoice = Chosen(text: string) | NoKey | NotAString

  /** `key.trim()` / `generateRandomKey()` selection: a truthy `random` wins over `key`. */
  function ChooseKey(body: PostBody, draws: seq<real>): (r: KeyChoice)
    requires |draws| >= 17 && AccessKeys.ValidDraws(draws)
    ensures JsTruthy(body.random) ==>
      && r.Chosen? && 10 <= |r.text| <= 16
      && forall i :: 0 <= i < |r.text| ==> 'a' <= r.text[i] <= 'z' || '0' <= r.text[i] <= '9'
    ensures !JsTruthy(body.random) ==>
      && (r == NoKey <==> !JsTruthy(body.key))
      && (r == NotAString <==> JsTruthy(body.key) && !body.key.value.JString?)
      && (r.Chosen? ==> body.key.value.JString? && r.text == Trim(body.key.value.s))
  {
    if JsTruthy(body.random) then Chosen(AccessKeys.GenerateRandomKey(draws))
    else if !JsTruthy(body.key) then NoKey
    else match body.key.value
      case JString(s) => Chosen(Trim(s))
      case _ => NotAString
  }

  /** `part` occurs in `s` starting at index `i`. */
  predicate OccursAt(s: string, part: string, i: int) {
    0 <= i && i + |part| <= |s| && s[i..i + |part|] == part
  }

  /** `String.prototype.includes`. */
  predicate Includes(s: string, part: string) {
    exists i | 0 <= i <= |s| - |part| :: OccursAt(s, part, i)
  }

  /** The protected-key refusal mentions the administrator, so DELETE answers it with 400. */
  lemma ProtectedMessageMentionsAdministrator()
    ensures Includes(AccessKeys.ProtectedKeyMessage, AdministratorWord)
  {
    var m := AccessKeys.ProtectedKeyMessage;
    var i := |m| - |AdministratorWord|;
    assert m[i..i + |AdministratorWord|] == AdministratorWord;
    assert OccursAt(m, AdministratorWord, i);
  }

  /** `id` as the SQL `WHERE id = ?` sees it: a negative number matches no row. */
  function KeyById(t: AccessKeys.KeyTable, id: int): (r: Option<AccessKeys.AccessKey>)
    ensures r.Some? ==> r.value in t.rows && r.value.id == id
    ensures r.None? <==> forall i :: 0 <= i < |t.rows| ==> t.rows[i].id != id
  {
    if id < 0 then None else AccessKeys.FindById(t, id)
  }

  /** GET: 403 unless the session is an administrator's; otherwise every key, newest first. */
  function Get(ctx: Context, db: Database.Db): (r: Outcome)
    ensures r.db == db && r.jar == JarAfter(ctx, db)
    ensures r.response.status == 403 <==> AdminOf(ctx, db).Failure?
    ensures r.response.status == 403 ==> r.response.body == ErrorBody(NotAuthorizedMessage)
    ensures r.response.status != 403 ==>
      && r.response.status == 200 && r.response.body.KeysBody?
      && multiset(r.response.body.keys) == multiset(db.keys.rows)
      && forall i, j :: 0 <= i < j < |r.response.body.keys| ==>
           r.response.body.keys[i].createdAt >= r.response.body.keys[j].createdAt
  {
    var (auth, jar) := Auth.RequireAdmin(ctx.env, db.keys, ctx.jar, ctx.now);
    if auth.Failure? then Outcome(Denied(auth.error), db, jar)
    else Outcome(Ok(KeysBody(AccessKeys.GetAllKeys(db.keys))), db, jar)
  }

  /** POST: 403 for a non-administrator; 400 with neither `random` nor `key`; 500 when the key
      is taken (or `key` is not a string); otherwise 201 with the stored key, which is active,
      never an administrator key, and the only change to the database. */
  function Post(ctx: Context, db: Database.Db, body: PostBody, draws: seq<real>): (r: Outcome)
    requires |draws| >= 17 && AccessKeys.ValidDraws(draws)
    ensures r.jar == JarAfter(ctx, db)
    ensures r.response.status in {201, 400, 403, 500}
    ensures r.response.status != 201 ==> r.db == db
    ensures r.db.lessons == db.lessons && r.db.progress == db.progress && r.db.config == db.config
    ensures db.Valid() ==> r.db.Valid()
    ensures r.response.status == 403 <==> AdminOf(ctx, db).Failure?
    ensures r.response.status == 403 ==> r.response.body == ErrorBody(NotAuthorizedMessage)
    ensures AdminOf(ctx, db).Success? ==>
      var c := ChooseKey(body, draws);
      && (r.response.status == 400 <==> c == NoKey)
      && (r.response.status == 400 ==> r.response.body == ErrorBody(KeyOrRandomRequiredMessage))
      && (r.response.status == 500 <==>
            c == NotAString || (c.Chosen? && exists i :: 0 <= i < |db.keys.rows| && db.keys.rows[i].key == c.text))
      && (r.response.status == 500 ==> r.response.body == ErrorBody(CreateFailedMessage))
      && (r.response.status == 201 ==>
            && r.response.body.KeyBody?
            && var a := r.response.body.key;
            && a.key == c.text && !a.isAdmin && a.isActive && a.ownerName == OrNull(body.ownerName)
            && AccessKeys.FindByKey(None, r.db.keys, a.key, ctx.now) == Some(a)
            && forall k :: k != a.key ==>
                 AccessKeys.FindByKey(None, r.db.keys, k, ctx.now) == AccessKeys.FindByKey(None, db.keys, k, ctx.now))
  {
    var (auth, jar) := Auth.RequireAdmin(ctx.env, db.keys, ctx.jar, ctx.now);
    if auth.Failure? then Outcome(Denied(auth.error), db, jar)
    else
      match ChooseKey(body, draws)
      case NoKey => Outcome(BadRequest(KeyOrRandomRequiredMessage), db, jar)
      case NotAString => Outcome(Response(500, ErrorBody(CreateFailedMessage)), db, jar)
      case Chosen(k) =>
        match AccessKeys.CreateKey(db.keys, k, body.ownerName, false, ctx.now)
        case Failure(_) => Outcome(Response(500, ErrorBody(CreateFailedMessage)), db, jar)
        case Success((keys, a)) => Outcome(Response(201, KeyBody(a)), db.(keys := keys), jar)
  }

  /** PATCH: 403 for a non-administrator; 400 without a truthy `id`; otherwise that key's
      `is_active` is negated (an unknown id changes nothing) and no other key changes. */
  function Patch(ctx: Context, db: Database.Db, id: Option<int>): (r: Outcome)
    ensures r.jar == JarAfter(ctx, db)
    ensures r.response.status in {200, 400, 403}
    ensures r.response.status != 200 ==> r.db == db
    ensures r.db.lessons == db.lessons && r.db.progress == db.progress && r.db.config == db.config
    ensures db.Valid() ==> r.db.Valid()
    ensures r.response.status == 403 <==> AdminOf(ctx, db).Failure?
    ensures r.response.status == 403 ==> r.response.body == ErrorBody(NotAuthorizedMessage)
    ensures AdminOf(ctx, db).Success? ==>
      && (r.response.status == 400 <==> !TruthyNumber(id))
      && (r.response.status == 400 ==> r.response.body == ErrorBody(IdRequiredMessage))
      && (r.response.status == 200 ==>
            && r.response.body == SuccessBody
            && KeyById(r.db.keys, id.value) ==
                 (match KeyById(db.keys, id.value) case Some(a) => Some(a.(isActive := !a.isActive)) case None => None)
            && forall id' :: id' != id.value ==> KeyById(r.db.keys, id') == KeyById(db.keys, id'))
  {
    var (auth, jar) := Auth.RequireAdmin(ctx.env, db.keys, ctx.jar, ctx.now);
    if auth.Failure? then Outcome(Denied(auth.error), db, jar)
    else if !TruthyNumber(id) then Outcome(BadRequest(IdRequiredMessage), db, jar)
    else if id.value < 0 then Outcome(Ok(SuccessBody), db, jar)
    else Outcome(Ok(SuccessBody), db.(keys := AccessKeys.ToggleActive(db.keys, id.value)), jar)
  }

  /** DELETE: 403 for a non-administrator; 400 without a truthy `id`; 400 with the store's
      own message when the id holds the protected key (nothing is deleted); otherwise that
      key is gone (an unknown id changes nothing) and no other key changes. */
  function Delete(ctx: Context, db: Database.Db, id: Option<int>): (r: Outcome)
    ensures r.jar == JarAfter(ctx, db)
    ensures r.response.status in {200, 400, 403}
    ensures r.response.status != 200 ==> r.db == db
    ensures r.db.lessons == db.lessons && r.db.progress == db.progress && r.db.config == db.config
    ensures db.Valid() ==> r.db.Valid()
    ensures r.response.status == 403 <==> AdminOf(ctx, db).Failure?
    ensures r.response.status == 403 ==> r.response.body == ErrorBody(NotAuthorizedMessage)
    ensures AdminOf(ctx, db).Success? ==>
      && (!TruthyNumber(id) ==> r.response == BadRequest(IdRequiredMessage))
      && (TruthyNumber(id) ==>
            var target := KeyById(db.keys, id.value);
            && (r.response.status == 400 <==> target.Some? && target.value.key == AccessKeys.ProtectedKey)
            && (r.response.status == 400 ==> r.response.body == ErrorBody(AccessKeys.ProtectedKeyMessage))
            && (r.response.status == 200 ==>
                  && r.response.body == SuccessBody
                  && KeyById(r.db.keys, id.value).None?
                  && forall id' :: id' != id.value ==> KeyById(r.db.keys, id') == KeyById(db.keys, id')))
  {
    var (auth, jar) := Auth.RequireAdmin(ctx.env, db.keys, ctx.jar, ctx.now);
    if auth.Failure? then Outcome(Denied(auth.error), db, jar)
    else if !TruthyNumber(id) then Outcome(BadRequest(IdRequiredMessage), db, jar)
    else if id.value < 0 then Outcome(Ok(SuccessBody), db, jar)
    else
      match AccessKeys.DeleteKey(db.keys, id.value)
      case Success(keys) => Outcome(Ok(SuccessBody), db.(keys := keys), jar)
      case Failure(e) =>
        var message := AccessKeys.KeyErrorMessage(e);
        ProtectedMessageMentionsAdministrator();
        if Includes(message, AdministratorWord) then Outcome(BadRequest(message), db, jar)
        else Outcome(Response(500, ErrorBody(DeleteFailedMessage)), db, jar)
  }

  /** No request to DELETE, whatever its id, removes the protected key from a valid store. */
  lemma ProtectedKeySurvivesRoute(ctx: Context, db: Database.Db, id: Option<int>)
    requires db.Valid()
    ensures AccessKeys.FindByKey(None, Delete(ctx, db, id).db.keys, AccessKeys.ProtectedKey, ctx.now)
      == AccessKeys.FindByKey(None, db.keys, AccessKeys.ProtectedKey, ctx.now)
  {
    if AdminOf(ctx, db).Success? && TruthyNumber(id) && id.value >= 0 && AccessKeys.DeleteKey(db.keys, id.value).Success? {
      AccessKeys.ProtectedKeySurvivesDelete(db.keys, id.value, ctx.now);
    }
  }
}
