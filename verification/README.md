# Key-gated video lessons: a Dafny model of the server core

The service sells access to a short course of video lessons. Learners do not create accounts:
they type an access key. The server checks the key against the `access_keys` table, with an
`ADMIN_KEY` environment variable that overrides the table. It then keeps a session cookie
holding `{key, isAdmin}` as JSON. Every protected request parses the cookie and re-checks its
key against the store; the role is read from the cookie's own `isAdmin`.

Learners watch lessons. A per-(key, lesson) progress row records watch time, completion,
favorites and notes. Completing a lesson earns its points only after at least
`60 × min_watch_time` seconds of watching. The points total gives one of three levels.
Administrators manage keys (typed or random, toggle, delete, with `admin2020` protected),
lessons and the player's overlay settings. On start-up the database is seeded with the
administrator key, the overlay defaults and three lessons.

The model is functional:
- Each table is the sequence of its rows in rowid order, plus the next AUTOINCREMENT id.
- `site_config` is a map.
- Every store operation and every route handler is a pure function from (database, request
  input) to (response, database, cookie).
- The clock (`now`), the `ADMIN_KEY` variable (`env`), the session cookie (`jar`) and the
  draws of `Math.random` are explicit inputs.
- Uniqueness constraints are `Valid()` predicates. Every writer is proved to preserve them.

Modules, one per file:
- `Common`: `Option`/`Result`, JavaScript truthiness, `||`, and `String.prototype.trim`.
- `Table`: the generic row-sequence operations (SELECT, UPDATE, INSERT, DELETE).
- `Sorting`: `ORDER BY` as a stable sort.
- `JsNumber`: `parseInt` and `Number.prototype.toString`.
- `SiteConfig`, `AccessKeys`, `Lessons` and `UserProgress`: the stores under `lib/models/`.
- `SessionCodec`: the cookie's JSON, written by `JSON.stringify` and read by a parser of the whole JSON grammar.
- `Auth`: `lib/auth.ts`.
- `Database`: the whole database and `initializeDatabase`.
- `Http`: what the handlers share.
- `ProgressRoute`, `LoginRoute`, `AdminKeysRoute`, `AdminLessonsRoute` and `SiteRoutes`: the handlers under `app/api/`.
- `LessonPage`: `getShortDescription`.

## Model

| member | source | states |
|---|---|---|
| Common.Trim | app/api/auth/login/route.ts:18 | the trimmed text is a contiguous slice of the input, everything cut before and after it is whitespace, and it neither starts nor ends with whitespace |
| Common.TrimIdempotent | app/api/auth/login/route.ts:18 | trimming a trimmed key changes nothing |
| Common.OrNull | lib/models/lessons.ts:48-68 | `s \|\| null` stores NULL exactly for an absent or empty string and otherwise keeps the value |
| JsNumber.ParseInt | lib/models/site-config.ts:34-39 | `parseInt` yields NaN exactly when no digit follows the sign and prefix; the sign decides the sign of the result |
| JsNumber.DecimalRoundTrip | lib/models/site-config.ts:34-44 | `parseInt(n.toString())` gives back `n` for every integer below 10^21 in magnitude, so such a stored duration reads back as written |
| SiteConfig.GetConfig | lib/models/site-config.ts:10-16 | a key without a row reads as null; otherwise its stored value is returned |
| SiteConfig.SetConfig | lib/models/site-config.ts:18-32 | after the upsert the key reads as the new value with a fresh timestamp; every other key reads and is stored as before; the key set only gains this key |
| SiteConfig.SetConfigIdempotent | lib/models/site-config.ts:18-32 | writing the same value twice is writing it once at the later time |
| SiteConfig.GetOverlaySettings | lib/models/site-config.ts:34-39 | a missing URL reads as ''; a missing or empty duration reads as 1500; any other duration is its `parseInt` |
| SiteConfig.DefaultDurationValue | lib/models/site-config.ts:36 | the fallback text '1500' parses to 1500 |
| SiteConfig.SetOverlaySettings | lib/models/site-config.ts:41-44 | reading the overlay back gives exactly the URL and, below 10^21, the duration written; no other key changes; both rows exist afterwards |
| AccessKeys.FindById | lib/models/access-keys.ts:67-71 | `WHERE id = ?` finds a row with that id, and finds nothing exactly when no row has it |
| AccessKeys.ValidIdsUnique | lib/db.ts:12-21 | in a table whose AUTOINCREMENT ids increase, no two rows share an id |
| AccessKeys.FoundAdminFlag | lib/models/access-keys.ts:12-35 | the found record's `is_admin` is the boolean `true` exactly for the `ADMIN_KEY` match and otherwise the stored column's 1 or 0; either way its truthiness is the record's admin flag |
| AccessKeys.FindByKey | lib/models/access-keys.ts:12-35 | a non-empty `ADMIN_KEY` equal to the argument yields the synthetic active administrator with id 0, whatever the table holds; otherwise the first stored row with exactly that key, or nothing |
| AccessKeys.GetAllKeys | lib/models/access-keys.ts:37-40 | the listing is a permutation of the table whose `created_at` never increases |
| AccessKeys.CreateKey | lib/models/access-keys.ts:42-56 | fails exactly when the key text is already stored (UNIQUE, lib/db.ts:15); otherwise inserts an active row under the next id with the admin flag given and a falsy owner as NULL, returns that row, and leaves every other key's lookup unchanged |
| AccessKeys.ToggleActive | lib/models/access-keys.ts:58-63 | the row with that id has `is_active` negated and nothing else changes; no other id's row changes; an unknown id changes nothing |
| AccessKeys.ToggledKeyFound | lib/models/access-keys.ts:58-63 | looking the toggled key up by its text finds the toggled row |
| AccessKeys.ToggleActiveTwice | lib/models/access-keys.ts:58-63 | toggling the same id twice restores the table |
| AccessKeys.DeleteKey | lib/models/access-keys.ts:65-81 | refuses with the administrator message exactly when that id holds 'admin2020'; otherwise the id's row is gone, every other id reads as before, and an unknown id is a no-op |
| AccessKeys.ProtectedKeySurvivesDelete | lib/models/access-keys.ts:65-81 | no successful delete changes what a lookup of 'admin2020' finds |
| AccessKeys.ProtectedKeyCanBeDeactivated | lib/models/access-keys.ts:58-63 | the toggle has no guard: it deactivates the stored 'admin2020' row |
| AccessKeys.Pick | lib/models/access-keys.ts:84 | `Math.floor(r * n)` of a draw in [0, 1) is an index below `n` |
| AccessKeys.RandomChars | lib/models/access-keys.ts:86-90 | the loop yields one alphabet character per draw, picked by that draw |
| AccessKeys.GenerateRandomKey | lib/models/access-keys.ts:83-93 | the length is 10 plus the first draw's pick among 7, so 10..16; every character is in [a-z0-9] and picked by its own draw |
| AccessKeys.AlphabetIsLowerAlphanumeric | lib/models/access-keys.ts:85 | every alphabet character is a lower-case letter or a digit |
| SessionCodec.EscapeChar | lib/auth.ts:15 | `JSON.stringify` escapes exactly the quote, the backslash and the control characters, and produces no control character |
| SessionCodec.Encode | lib/auth.ts:11-15 | the cookie value is a JSON object text, opening with the key's string and closing with the flag's text |
| SessionCodec.UnquoteEscape | lib/auth.ts:15-33 | a JSON string body written for a key reads back as that key, stopping at its closing quote |
| SessionCodec.NumberLength | lib/auth.ts:33 | a JSON number starts with a minus or a digit and is never empty |
| SessionCodec.ParseValue | lib/auth.ts:33 | each parsed value's kind is fixed by its first non-blank character, and reading it consumes text |
| SessionCodec.Decode | lib/auth.ts:33 | `JSON.parse`: a parsed value's kind follows the first non-blank character of the text |
| SessionCodec.LastMember | lib/auth.ts:33-36 | a member name is undefined exactly when no member has it; otherwise its value is that of the last member of that name |
| SessionCodec.Member | lib/auth.ts:33-36 | only an object has members: a string, number, boolean, array or null answers undefined |
| SessionCodec.DecodeEncode | lib/auth.ts:11-33 | `JSON.parse(JSON.stringify({key, isAdmin}))` gives back the object with the key and the flag, for every key text and for both the 1/0 and the boolean spelling of the flag |
| SessionCodec.DecodeRefusesTrailing | lib/auth.ts:33 | `JSON.parse` throws on the written session text followed by anything but whitespace, because the object ends at its closing brace |
| SessionCodec.DecodeReordered | lib/auth.ts:33-36 | the two members in the other order parse to the same `key` and `isAdmin` |
| SessionCodec.DecodeScalars | lib/auth.ts:33 | `5`, `null` and `[]` are JSON that parses, not syntax errors |
| SessionCodec.FlagTruthiness | lib/auth.ts:66 | the stored 1 and the boolean `true` are truthy, 0 and `false` falsy |
| Auth.CreateSession | lib/auth.ts:11-22 | the cookie lives 2592000 s (thirty days) and parses back to the object `{key, isAdmin}` with the flag as given |
| Auth.ClearSession | lib/auth.ts:48-51 | the cookie is gone |
| Auth.KeyOf | lib/auth.ts:33-36 | the key looked up is the cookie's `key` member when that is a string, and there is none otherwise |
| Auth.GetSession | lib/auth.ts:24-46 | no cookie is no session; a cookie that is not JSON, or is `null`, is no session and is kept; a parsed value with no string `key`, or whose key is unknown or inactive, is no session and the cookie is deleted; otherwise the session is that key with the cookie's own `isAdmin` member, whatever its kind, and the cookie is kept |
| Auth.RequireAuth | lib/auth.ts:53-61 | fails with Unauthorized exactly when there is no session, otherwise yields that session |
| Auth.RequireAdmin | lib/auth.ts:63-71 | Unauthorized without a session, Forbidden for a session whose `isAdmin` member is falsy or missing, otherwise the session |
| Auth.SessionRoundTrip | lib/auth.ts:11-46 | a session created for a live key reads back as that key with the flag's value and keeps its cookie |
| Auth.DeactivationEndsSession | lib/auth.ts:35-40 | after a stored key is toggled off, a session on it reads as none and the cookie is deleted |
| Auth.AdminFlagTrustedFromCookie | lib/auth.ts:33-71 | a cookie whose flag is truthy, 1 or `true`, passes `requireAdmin` for any live key, even a non-admin one |
| Auth.AdminFlagFalseIsForbidden | lib/auth.ts:63-71 | a live key whose cookie flag is 0 or `false` is refused with Forbidden, not Unauthorized |
| Auth.NullCookieKept | lib/auth.ts:32-45 | a cookie holding `null` throws at `session.key`, so it is no session and stays set |
| Auth.ForeignJsonCleared | lib/auth.ts:32-40 | a cookie holding `5` or `[]` parses, finds no key and is deleted |
| Auth.AppendedCookieKept | lib/auth.ts:32-45 | a session cookie with text appended after its closing brace throws in `JSON.parse`, so it is no session and stays set |
| Auth.ReorderedCookieAccepted | lib/auth.ts:32-42 | a cookie with the members in the other order opens the same session |
| Lessons.ValidIdsUnique | lib/db.ts:24-38 | in a lessons table whose AUTOINCREMENT ids increase, no two rows share an id |
| Lessons.GetAllLessons | lib/models/lessons.ts:20-23 | the listing is a permutation of the table in ascending `order_num`, ties allowed |
| Lessons.GetLessonById | lib/models/lessons.ts:25-31 | finds a lesson with that id, and nothing exactly when no row has it |
| Lessons.Append | lib/models/lessons.ts:50-68 | the inserted row is found under its fresh id; every other id reads as before; ids stay increasing |
| Lessons.CreateLesson | lib/models/lessons.ts:48-86 | the new row takes the next id; falsy optional strings are stored as NULL; absent or zero `points` and `min_watch_time` become 10; the returned lesson is the stored row; no other id changes |
| Lessons.ApplyPatch | lib/models/lessons.ts:103-154 | the patched lesson keeps its id and creation time |
| Lessons.UpdateLesson | lib/models/lessons.ts:103-163 | an empty patch or an unknown id changes nothing; otherwise that lesson is patched and every other id reads as before |
| Lessons.PatchChangesOnlyGivenFields | lib/models/lessons.ts:103-154 | each defined patch field is stored exactly as given (`''` stays `''`) and each undefined one keeps its old value |
| Lessons.PatchIdempotent | lib/models/lessons.ts:103-163 | applying the same patch twice is applying it once |
| Lessons.EmptyStringCreateVersusUpdate | lib/models/lessons.ts:48-154 | an empty description becomes NULL on create but is stored as '' on update |
| Lessons.DeleteLesson | lib/models/lessons.ts:165-170 | the id reads as absent afterwards; every other id reads as before; an unknown id is a no-op |
| UserProgress.GetProgress | lib/models/user-progress.ts:16-22 | the row of (user, lesson), or nothing exactly when no row has that pair |
| UserProgress.Upsert | lib/models/user-progress.ts:24-90 | the shared read-then-write: an existing row is rewritten in place; a missing one is inserted; no other pair changes; UNIQUE(user_key, lesson_id) is preserved |
| UserProgress.UpdateWatchTime | lib/models/user-progress.ts:24-39 | the pair ends with exactly the given seconds (overwritten, not added) and a fresh `last_viewed`; an existing row keeps every other field; a new row starts not completed, not favorited, with 0 points and no notes; no other pair changes |
| UserProgress.PointsToAward | lib/models/user-progress.ts:49-51 | the lesson's points when the watch time reaches 60 × the minimum in minutes, else 0 |
| UserProgress.MarkAsCompleted | lib/models/user-progress.ts:41-58 | fails with "Progress not found" exactly when the pair has no row, changing nothing; otherwise marks it completed with the awarded points overwritten, watch time untouched, and no other pair changed |
| UserProgress.AwardExamples | lib/models/user-progress.ts:49-51 | 300 s against a 10-minute minimum earns 0; 600 s earns the lesson's points |
| UserProgress.MarkAsCompletedIdempotent | lib/models/user-progress.ts:41-58 | completing twice with the same arguments is completing once: points are overwritten, not added |
| UserProgress.PointsCanRegress | lib/models/user-progress.ts:24-58 | completing after a smaller watch time was reported lowers the earned points to 0 |
| UserProgress.ToggleFavorite | lib/models/user-progress.ts:60-74 | an existing row has only `favorited` negated; a missing one is created favorited; no other pair changes |
| UserProgress.ToggleFavoriteFreshPair | lib/models/user-progress.ts:60-74 | on a fresh pair the first toggle favorites and the second unfavorites |
| UserProgress.ToggleFavoriteTwice | lib/models/user-progress.ts:60-74 | on an existing row two toggles restore the table |
| UserProgress.SaveNotes | lib/models/user-progress.ts:76-90 | the notes become exactly the text, even ''; an existing row keeps every other field; no other pair changes |
| UserProgress.GetUserPoints | lib/models/user-progress.ts:92-98 | the sum of `points_earned` over exactly the user's rows: 0 without rows, never negative when no row is |
| UserProgress.SumOrNullIsSum | lib/models/user-progress.ts:92-98 | `SUM(...) \|\| 0` equals the plain total, NULL for no rows included |
| UserProgress.PointsUnchangedByViewing | lib/models/user-progress.ts:24-98 | watch time, favorites and notes never change anybody's total |
| UserProgress.PointsAfterCompletion | lib/models/user-progress.ts:41-98 | completing moves that user's total by the change of that row's points and leaves every other user's total alone |
| UserProgress.GetUserLevel | lib/models/user-progress.ts:100-104 | 'Mestre' exactly from 151 points, 'Intermediário' exactly for 51..150, 'Aprendiz' exactly up to 50 |
| UserProgress.LevelMonotone | lib/models/user-progress.ts:100-104 | more points never give a lower level |
| UserProgress.ByRecency | lib/models/user-progress.ts:106-120 | `ORDER BY last_viewed DESC` over the selected rows: a permutation of them whose `last_viewed` never increases |
| UserProgress.GetRecentLessons | lib/models/user-progress.ts:106-112 | at most `limit` ids (a negative limit is no limit), each a lesson the user has a row for, no repeats, most recent first, and no omitted lesson viewed later than one returned |
| UserProgress.GetFavoriteLessons | lib/models/user-progress.ts:114-120 | a lesson is listed exactly when the user has favorited it; each once, most recent first |
| Database.InsertConfig | lib/db.ts:93-100 | a plain insert fails on an existing key (UNIQUE `config_key`) and otherwise adds exactly that entry |
| Database.SeedOverlay | lib/db.ts:87-101 | runs only without a URL row; then inserts '' and '1500', and fails after the first insert when a duration row already exists; other keys are untouched |
| Database.SeededOverlayDefaults | lib/db.ts:87-101 | a seeded overlay reads as no image for 1500 ms |
| Database.SeedAdmin | lib/db.ts:120-144 | without an 'admin2020' row, removes the legacy key and inserts the active administrator 'admin2020'; with one, changes nothing; constraints are preserved |
| Database.SeedLesson | lib/db.ts:146-204 | each seed lesson has its order 1..3 and the columns' default reward of 10 points and 10 minutes (lib/db.ts:67-75) |
| Database.SeedRows | lib/db.ts:146-204 | the three seed rows take consecutive ids with orders 1, 2, 3 and are listed in that order |
| Database.SeedLessons | lib/db.ts:146-204 | only an empty lessons table is seeded; constraints are preserved |
| Database.SeedOrder | lib/db.ts:146-204 | any number of rows already in ascending `order_num` come back from the listing sort unchanged |
| Database.InitializeDatabase | lib/db.ts:10-205 | the seeding sequence keeps every constraint and never touches progress; it throws exactly when a duration row exists without a URL row; a completed run leaves an 'admin2020' row and a well-formed overlay |
| Database.InitializeIdempotent | lib/db.ts:87-204 | a second run after a completed one changes nothing |
| Database.FailedSeedCompletesNextTime | lib/db.ts:87-101 | a run that threw at the overlay seed leaves the URL row, so the next run completes |
| Database.ExistingAdminRowKept | lib/db.ts:120-144 | the seed never reactivates or promotes an existing 'admin2020' row |
| Database.SeedEmptyDatabase | lib/db.ts:10-205 | an empty database is seeded with 'admin2020' as active administrator row 1, three lessons and the overlay defaults |
| Http.Denied | app/api/progress/route.ts:48-51 | both auth errors are answered 403 'Não autorizado' |
| Http.LessonById | lib/models/lessons.ts:25-31 | a lesson found for any integer id, a negative one included, has that id; nothing is found exactly when no row has it |
| ProgressRoute.Dispatch | app/api/progress/route.ts:70-84 | 'updateWatchTime' applies only with `watchTimeSeconds`, 'saveNotes' only with `notes`, 'markCompleted' and 'toggleFavorite' always; any other body selects no action |
| ProgressRoute.LessonsOf | app/api/progress/route.ts:35-45 | the lessons looked up for a list of ids: only stored lessons with a listed id, and every listed id that names a lesson is there |
| ProgressRoute.LessonsOfExact | app/api/progress/route.ts:35-45 | in a valid table, a lesson is returned exactly when it is stored and its id is listed |
| ProgressRoute.ProgressFor | app/api/progress/route.ts:14-17 | the query id is read with `parseInt`; NaN is refused by the database client, and otherwise the row found is the caller's row for that lesson |
| ProgressRoute.Get | app/api/progress/route.ts:7-55 | 403 exactly without a session; with a `lessonId` it answers the caller's row, their total points and its level, or 500 exactly when the id is NaN; otherwise the dashboard holds at most five recent lessons the caller has viewed, and in a valid database exactly the stored lessons among the caller's five most recent ids and exactly the favorited lessons that still exist; nothing is written |
| ProgressRoute.RecentRowExists | lib/models/user-progress.ts:106-112 | every recent id names a row of the user, even in a table without the constraints |
| ProgressRoute.Perform | app/api/progress/route.ts:70-84 | each action changes only the caller's row for that lesson: watch time overwritten, notes saved, favorite flipped, or completion with the lesson's own points and minimum; 404 for a missing lesson, 500 for a missing progress row |
| ProgressRoute.Complete | app/api/progress/route.ts:72-92 | 'markCompleted' answers 404 exactly when the lesson is missing and 500 exactly when the lesson exists but the caller has no row; otherwise the row is completed with the lesson's points when watched long enough |
| ProgressRoute.LessonIdNumber | app/api/progress/route.ts:68 | `parseInt(lessonId)`: a string is parsed, a number is itself, anything else is NaN |
| ProgressRoute.Post | app/api/progress/route.ts:58-94 | 403 exactly without a session; 400 with no state change for a falsy `lessonId` or no applicable action; otherwise the action's outcome on the caller's row for `parseInt(lessonId)`, or 500 with no state change when that is NaN |
| ProgressRoute.StringLessonIds | app/api/progress/route.ts:64-68 | the id string "0" is truthy and names lesson 0, "7abc" names lesson 7, and "abc" is NaN |
| ProgressRoute.UnparsedIdRefused | app/api/progress/route.ts:64-92 | the id "abc" fails every action with 500 'Erro ao atualizar progresso' and changes nothing |
| ProgressRoute.WatchThenComplete | app/api/progress/route.ts:58-94 | reporting enough watch time and then completing, both through the route with the page's id string, earns the lesson's points |
| LoginRoute.Post | app/api/auth/login/route.ts:5-52 | 400 exactly for a missing, empty or non-string key; 401 with one message for an unknown or inactive trimmed key, with no cookie set; otherwise a thirty-day cookie for the trimmed key and `is_admin` as found (the boolean exactly for `ADMIN_KEY`, else the stored 1 or 0), the same flag answered, redirecting to '/admin' exactly for an administrator and to '/aulas' otherwise; the database never changes |
| LoginRoute.LoginOpensSession | app/api/auth/login/route.ts:35-44 | after a successful login the new cookie passes `requireAuth` as the trimmed key with the answered flag, and passes `requireAdmin` exactly when the login redirected to '/admin' |
| AdminKeysRoute.ChooseKey | app/api/admin/keys/route.ts:35-46 | a truthy `random` wins and gives a 10..16 character [a-z0-9] key; otherwise the trimmed string `key`, nothing when it is falsy |
| AdminKeysRoute.ProtectedMessageMentionsAdministrator | app/api/admin/keys/route.ts:101-103 | the protected-key error contains 'administrador', so DELETE answers it with 400 |
| AdminKeysRoute.KeyById | lib/models/access-keys.ts:67-71 | the key found for any integer id has that id; nothing is found exactly when no row has it |
| AdminKeysRoute.Get | app/api/admin/keys/route.ts:12-24 | 403 exactly for a non-administrator; otherwise every key, newest first; nothing is written |
| AdminKeysRoute.Post | app/api/admin/keys/route.ts:27-60 | 403 for a non-administrator; 400 exactly with neither `random` nor `key`; 500 exactly for a taken or non-string key; otherwise 201 with an active, non-admin key that lookups then find, and no other key changes |
| AdminKeysRoute.Patch | app/api/admin/keys/route.ts:63-82 | 403 for a non-administrator; 400 exactly without a truthy `id`; otherwise only that key's active flag flips |
| AdminKeysRoute.Delete | app/api/admin/keys/route.ts:85-107 | 403 for a non-administrator; 400 without a truthy `id`; 400 with the store's message exactly when the id holds 'admin2020', deleting nothing; otherwise only that key is gone |
| AdminKeysRoute.ProtectedKeySurvivesRoute | app/api/admin/keys/route.ts:85-107 | no DELETE request, whatever its id, changes what a lookup of 'admin2020' finds |
| AdminLessonsRoute.NewLessonOf | app/api/admin/lessons/route.ts:66-77 | the created data carries the body's title, video id, order, cover image, three seal fields, description, materials and steps as given, and never a reward field |
| AdminLessonsRoute.PatchOf | app/api/admin/lessons/route.ts:101-111 | the patch forwards each of the ten listed fields (title, video id, cover image, three seal fields, description, materials, steps, order) as given and never a reward field |
| AdminLessonsRoute.Get | app/api/admin/lessons/route.ts:14-38 | 403 exactly for a non-administrator; with an `id` that lesson, or 500 exactly when it parses to NaN, or 404 exactly when it names no lesson; otherwise every lesson in ascending order |
| AdminLessonsRoute.Post | app/api/admin/lessons/route.ts:41-88 | 403 for a non-administrator; 400 exactly without title, video id or order; otherwise 201 with a new lesson under the next id carrying the body's title, video id and order, each optional text as given or NULL when falsy, and the default reward of 10 and 10; no other lesson changes |
| AdminLessonsRoute.PostIgnoresReward | app/api/admin/lessons/route.ts:66-77 | the body's `points` and `min_watch_time` make no difference to the outcome |
| AdminLessonsRoute.Patch | app/api/admin/lessons/route.ts:91-122 | 403 for a non-administrator; 400 exactly without a truthy `id`; otherwise only that lesson takes the forwarded fields |
| AdminLessonsRoute.PatchKeepsReward | app/api/admin/lessons/route.ts:101-111 | no PATCH changes any lesson's points or minimum watch time |
| AdminLessonsRoute.Delete | app/api/admin/lessons/route.ts:125-144 | 403 for a non-administrator; 400 exactly without a truthy `id`; otherwise only that lesson is gone and progress rows naming it stay |
| SiteRoutes.LessonsGet | app/api/lessons/route.ts:7-15 | with no session check, every lesson in ascending order |
| SiteRoutes.OverlayGet | app/api/config/overlay/route.ts:4-12 | with no session check, the stored URL and the stored duration through `parseInt`, each with its default when absent |
| SiteRoutes.OverlayPost | app/api/admin/config/overlay/route.ts:5-27 | 403 exactly for a non-administrator; 400 exactly for a missing or negative duration; otherwise both overlay keys are written, a falsy URL as '', and nothing else changes |
| SiteRoutes.OverlayRoundTrip | app/api/admin/config/overlay/route.ts:18-19 | what an administrator saves is what every visitor then reads |
| LessonPage.ShortDescription | app/aulas/page.tsx:50-55 | a missing or empty description gives the placeholder; one of at most 120 characters is kept; a longer one is its first 120 characters followed by '...' |
| LessonPage.ShortDescriptionBounds | app/aulas/page.tsx:50-55 | the card text is never longer than 123 characters and starts with the description's first min(length, 120) characters |
| LessonPage.ShortDescriptionIdempotent | app/aulas/page.tsx:50-55 | shortening a card text again changes nothing |

## Left out

- Store failures: the model's store operations are total. The 500 answers that only a failing database produces (connection loss, the catch-all blocks of every handler) are not modelled. Nor is `findByKey` turning a database error into `undefined`.
- Table creation, the `ALTER TABLE` migrations and the database client construction in lib/db.ts. Only the seeding decisions and the constraints they rely on are modelled.
- Concurrency: each request is one atomic step. The read-then-write races between requests are not modelled.
- Cookie transport attributes (`httpOnly`, `secure`, `sameSite`, `path`) and the cookie's name are framework concerns. The cookie is modelled as its value and its max-age.
- SessionCodec.ValueTruthy: a number's truthiness is read from its digits, so a number too small for a double (such as `1e-400`), which JavaScript reads as 0, counts as truthy.
- Auth.KeyOf: a `key` member that is a number or a boolean matches no key here, while SQLite would compare its text form with the stored keys.
- SessionCodec.Unescape1: a `\u` escape naming a UTF-16 surrogate is refused, while `JSON.parse` accepts it; the model's strings hold Unicode scalar values only.
- Response bodies are values, not JSON text. Key listings read from the table carry `is_admin` and `is_active` as 1 or 0 where the model's records hold booleans; only the login answer and the cookie keep the two spellings apart (`AccessKeys.AdminFlag`).
- Request bodies are modelled as typed fields. A number field is absent or an integer. Fractional numbers, `null`, strings where numbers are expected and arrays are not modelled, except for the login key, the key POST's `key` and `random`, and the progress POST's `lessonId`, which are JSON values.
- ProgressRoute.LessonIdNumber: an array `lessonId` such as `[7]`, which `parseInt` reads through its text form '7', is treated as NaN.
- The database client (`@libsql/client`) is not part of this model. The model takes from it that a NaN argument is refused before any SQL runs: the store function throws, and the handler's catch answers 500. A lesson id of NaN therefore never reaches a table.
- JsNumber.NumberToString: writes every integer in plain decimal. JavaScript numbers are doubles: `toString` switches to exponent notation ('1e+21') from 10^21 on, and integers beyond 2^53 are not all representable, so such magnitudes are not modelled.
- JsNumber.DecimalRoundTrip: proved for the model's unbounded integers; for JavaScript numbers it holds only below 10^21 in magnitude, since `parseInt('1e+21')` is 1.
- SiteConfig.SetOverlaySettings: the duration reads back as written only below 10^21, because it is stored through `toString`.
- SiteRoutes.OverlayPost: the body's `durationMs` is an integer; a fractional duration, and one of 10^21 or more, which `parseInt` would turn into its leading digit, are not covered.
- SiteRoutes.OverlayRoundTrip: holds for durations below 10^21 only, as for SetOverlaySettings.
- UserProgress.PointsToAward: the source divides in floating point. For integer seconds and minutes, `seconds / 60 >= minutes` is exactly `seconds >= 60 × minutes`, which is what is modelled.
- LessonPage.ShortDescription: lengths count Dafny characters, while JavaScript counts UTF-16 code units; the two differ for characters outside the Basic Multilingual Plane.
- ProgressRoute.LessonsOf: the order of the looked-up lessons (the order of the ids) is not stated, only which lessons are present.
- ProgressRoute.Get: the order of the dashboard's lessons is not stated, only which lessons are listed; the recent list is stated exactly for a database that keeps its constraints.
- The React pages, their client-side guards, the video player component and the service worker registration are browser code.
- setup_database_robust.ts is a one-off script whose schema disagrees with the model layer, and it is not part of this model.
- Timestamps are the clock input `now`; `CURRENT_TIMESTAMP` and `new Date().toISOString()` are both that value, as integers.
