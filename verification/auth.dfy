/** The session gate (lib/auth.ts): a cookie holding the session as JSON, re-checked
    against the key store on every read. The cookie jar is a parameter: `None` is "no
    `encanto_session` cookie", and every operation returns the jar as it leaves it. */
module Auth {
  import opened Common
  import AccessKeys
  import SessionCodec

  /** What `getSession` answers: the parsed cookie itself, of which the gate reads the
      string `key` member and `requireAdmin` the `isAdmin` member (`None` is `undefined`). */
  datatype Session = Session(key: string, isAdmin: Option<SessionCodec.Value>)

  const SessionCookieName: string := "encanto_session"

  /** `maxAge: 60 * 60 * 24 * 30`: thirty days, in seconds. */
  const SessionMaxAge: int := 60 * 60 * 24 * 30

  datatype Cookie = Cookie(value: string, maxAge: int)

  /** The request's session cookie, if any. */
  type Jar = Option<Cookie>

  /** The errors `requireAuth` and `requireAdmin` throw. */
  datatype AuthError = Unauthorized | Forbidden

  function AuthErrorMessage(e: AuthError): string {
    match e
    case Unauthorized => "Unauthorized"
    case Forbidden => "Forbidden"
  }

  /** `createSession`: sets the cookie to the JSON of `{ key, isAdmin }` for thirty days. */
  function CreateSession(key: string, isAdmin: AccessKeys.AdminFlag): (jar: Jar)
    ensures jar.Some? && jar.value.maxAge == SessionMaxAge == 2592000
    ensures SessionCodec.Decode(jar.value.value) == Some(SessionCodec.SessionObject(key, isAdmin))
  {
    SessionCodec.DecodeEncode(key, isAdmin);
    Some(Cookie(SessionCodec.Encode(key, isAdmin), SessionMaxAge))
  }

  /** `clearSession`: deletes the cookie. */
  function ClearSession(jar: Jar): (r: Jar)
    ensures r.None?
  {
    None
  }

  /** The key a session names still opens the door: `findByKey` finds it and it is active. */
  predicate KeyAdmits(env: Option<string>, keys: AccessKeys.KeyTable, k: string, now: int) {
    var a := AccessKeys.FindByKey(env, keys, k, now);
    a.Some? && a.value.isActive
  }

  /** A cookie text whose reading throws inside the `try`: `JSON.parse` refuses it, or it
      is `null`, whose `.key` is a `TypeError`. The `catch` keeps the cookie. */
  predicate Unreadable(text: string) {
    var v := SessionCodec.Decode(text);
    v.None? || v.value == SessionCodec.Null
  }

  /** `session.key` as `findByKey` can match it: a string member. A missing member, and one
      of another kind, match no key. */
  function KeyOf(v: SessionCodec.Value): (r: Option<string>)
    ensures r.Some? <==> SessionCodec.Member(v, "key").Some? && SessionCodec.Member(v, "key").value.Str?
    ensures r.Some? ==> SessionCodec.Member(v, "key") == Some(SessionCodec.Str(r.value))
  {
    match SessionCodec.Member(v, "key")
    case Some(Str(k)) => Some(k)
    case _ => None
  }

  /** `getSession`: no cookie is no session; a cookie whose reading throws is no session
      but stays set; a parsed value whose `key` finds no active key is no session and the
      cookie is cleared; otherwise the session is the cookie's own content, `isAdmin`
      member included, whatever its kind. */
  function GetSession(env: Option<string>, keys: AccessKeys.KeyTable, jar: Jar, now: int): (r: (Option<Session>, Jar))
    ensures jar.None? ==> r == (None, None)
    ensures jar.Some? && Unreadable(jar.value.value) ==> r == (None, jar)
    ensures jar.Some? && !Unreadable(jar.value.value) ==>
      var v := SessionCodec.Decode(jar.value.value).value;
      var k := KeyOf(v);
      && (k.Some? && KeyAdmits(env, keys, k.value, now) ==>
            r == (Some(Session(k.value, SessionCodec.Member(v, "isAdmin"))), jar))
      && (!(k.Some? && KeyAdmits(env, keys, k.value, now)) ==> r == (None, None))
  {
    match jar
    case None => (None, None)
    case Some(cookie) =>
      if Unreadable(cookie.value) then (None, jar)
      else
        var v := SessionCodec.Decode(cookie.value).value;
        match KeyOf(v)
        case None => (None, ClearSession(jar))
        case Some(k) =>
          var accessKey := AccessKeys.FindByKey(env, keys, k, now);
          if accessKey.None? || !accessKey.value.isActive then (None, ClearSession(jar))
          else (Some(Session(k, SessionCodec.Member(v, "isAdmin"))), jar)
  }

  /** `requireAuth`: the session, or `Unauthorized`. */
  function RequireAuth(env: Option<string>, keys: AccessKeys.KeyTable, jar: Jar, now: int): (r: (Result<Session, AuthError>, Jar))
    ensures r.1 == GetSession(env, keys, jar, now).1
    ensures r.0.Failure? <==> GetSession(env, keys, jar, now).0.None?
    ensures r.0.Failure? ==> r.0.error == Unauthorized
    ensures r.0.Success? ==> Some(r.0.value) == GetSession(env, keys, jar, now).0
  {
    var (session, jar') := GetSession(env, keys, jar, now);
    if session.None? then (Failure(Unauthorized), jar') else (Success(session.value), jar')
  }

  /** `requireAdmin`: `Unauthorized` without a session, `Forbidden` when the session's
      own `isAdmin` member is falsy, else the session. */
  function RequireAdmin(env: Option<string>, keys: AccessKeys.KeyTable, jar: Jar, now: int): (r: (Result<Session, AuthError>, Jar))
    ensures r.1 == GetSession(env, keys, jar, now).1
    ensures var s := GetSession(env, keys, jar, now).0;
      && (s.None? ==> r.0 == Failure(Unauthorized))
      && (s.Some? && !SessionCodec.ValueTruthy(s.value.isAdmin) ==> r.0 == Failure(Forbidden))
      && (s.Some? && SessionCodec.ValueTruthy(s.value.isAdmin) ==> r.0 == Success(s.value))
  {
    var (auth, jar') := RequireAuth(env, keys, jar, now);
    if auth.Failure? then (auth, jar')
    else if !SessionCodec.ValueTruthy(auth.value.isAdmin) then (Failure(Forbidden), jar')
    else (auth, jar')
  }

  /** A session created for a key that admits reads back as that key with the flag's value,
      and keeps its cookie. */
  lemma SessionRoundTrip(env: Option<string>, keys: AccessKeys.KeyTable, k: string, f: AccessKeys.AdminFlag, now: int)
    requires KeyAdmits(env, keys, k, now)
    ensures GetSession(env, keys, CreateSession(k, f), now) ==
      (Some(Session(k, Some(SessionCodec.FlagValue(f)))), CreateSession(k, f))
  {
    SessionObjectMembers(k, f);
  }

  /** The writer's object has the key as its string `key` and the flag as its `isAdmin`. */
  lemma SessionObjectMembers(k: string, f: AccessKeys.AdminFlag)
    ensures SessionCodec.SessionObject(k, f) != SessionCodec.Null
    ensures KeyOf(SessionCodec.SessionObject(k, f)) == Some(k)
    ensures SessionCodec.Member(SessionCodec.SessionObject(k, f), "isAdmin") == Some(SessionCodec.FlagValue(f))
  {
    var ms := SessionCodec.SessionObject(k, f).members;
    assert ms[..1] == [("key", SessionCodec.Str(k))];
    assert ms[1].0 != "key";
    assert SessionCodec.LastMember(ms, "key") == SessionCodec.LastMember(ms[..1], "key");
  }

  /** Deactivating a stored key ends every session on it at the next read, and that read
      deletes the cookie; a configured `ADMIN_KEY` of the same text is the exception. */
  lemma DeactivationEndsSession(env: Option<string>, keys: AccessKeys.KeyTable, id: nat, f: AccessKeys.AdminFlag, now: int)
    requires keys.Valid()
    requires AccessKeys.FindById(keys, id).Some? && AccessKeys.FindById(keys, id).value.isActive
    requires !(Truthy(env) && env.value == AccessKeys.FindById(keys, id).value.key)
    ensures var k := AccessKeys.FindById(keys, id).value.key;
      GetSession(env, AccessKeys.ToggleActive(keys, id), CreateSession(k, f), now) == (None, None)
  {
    var k := AccessKeys.FindById(keys, id).value.key;
    AccessKeys.ToggledKeyFound(keys, id, now);
    SessionObjectMembers(k, f);
  }

  /** The role comes from the cookie, not from the key store: a cookie whose flag is truthy,
      as the stored 1 or the boolean `true`, passes `requireAdmin` on any active key,
      whatever the key's `is_admin`. */
  lemma AdminFlagTrustedFromCookie(env: Option<string>, keys: AccessKeys.KeyTable, k: string, f: AccessKeys.AdminFlag, now: int)
    requires KeyAdmits(env, keys, k, now) && f.b
    ensures RequireAdmin(env, keys, CreateSession(k, f), now).0 == Success(Session(k, Some(SessionCodec.FlagValue(f))))
  {
    SessionRoundTrip(env, keys, k, f, now);
    SessionCodec.FlagTruthiness(f);
  }

  /** A session cookie for a key that admits but whose flag is falsy (0 or `false`) is
      refused by `requireAdmin` even when the key itself is an administrator key. */
  lemma AdminFlagFalseIsForbidden(env: Option<string>, keys: AccessKeys.KeyTable, k: string, f: AccessKeys.AdminFlag, now: int)
    requires KeyAdmits(env, keys, k, now) && !f.b
    ensures RequireAdmin(env, keys, CreateSession(k, f), now).0 == Failure(Forbidden)
  {
    SessionRoundTrip(env, keys, k, f, now);
    SessionCodec.FlagTruthiness(f);
  }

  /** A cookie holding the JSON `null` throws at `session.key`, so it stays set. */
  lemma NullCookieKept(env: Option<string>, keys: AccessKeys.KeyTable, maxAge: int, now: int)
    ensures GetSession(env, keys, Some(Cookie("null", maxAge)), now) == (None, Some(Cookie("null", maxAge)))
  {
    SessionCodec.DecodeScalars();
  }

  /** A session cookie with text appended after its closing brace makes `JSON.parse`
      throw: no session, and the cookie stays set. */
  lemma AppendedCookieKept(env: Option<string>, keys: AccessKeys.KeyTable, k: string, f: AccessKeys.AdminFlag, extra: string, maxAge: int, now: int)
    requires |SessionCodec.SkipWs(extra)| > 0
    ensures var text := SessionCodec.Encode(k, f) + extra;
      GetSession(env, keys, Some(Cookie(text, maxAge)), now) == (None, Some(Cookie(text, maxAge)))
  {
    SessionCodec.DecodeRefusesTrailing(k, f, extra);
  }

  /** A cookie holding JSON with no string `key`, such as a number or an array, parses;
      the lookup of `undefined` then finds no key, so the cookie is deleted. */
  lemma ForeignJsonCleared(env: Option<string>, keys: AccessKeys.KeyTable, maxAge: int, now: int)
    ensures GetSession(env, keys, Some(Cookie("5", maxAge)), now) == (None, None)
    ensures GetSession(env, keys, Some(Cookie("[]", maxAge)), now) == (None, None)
  {
    SessionCodec.DecodeScalars();
  }

  /** A cookie with the writer's members in the other order opens the same session. */
  lemma ReorderedCookieAccepted(env: Option<string>, keys: AccessKeys.KeyTable, k: string, f: AccessKeys.AdminFlag, maxAge: int, now: int)
    requires KeyAdmits(env, keys, k, now)
    ensures var text := "{" + ("\"isAdmin\":" + (SessionCodec.FlagText(f) + ("," + ("\"key\":" + ("\"" + SessionCodec.Escape(k) + "\"" + "}")))));
      GetSession(env, keys, Some(Cookie(text, maxAge)), now) ==
        (Some(Session(k, Some(SessionCodec.FlagValue(f)))), Some(Cookie(text, maxAge)))
  {
    SessionCodec.DecodeReordered(k, f);
  }
}
