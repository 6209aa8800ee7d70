/** The `user_progress` table and the progress engine (lib/models/user-progress.ts):
    one row per (user key, lesson), created on first write, holding watch time,
    completion, points, the favorite flag and notes. */
module UserProgress {
  import opened Common
  import Table
  import Sorting

  const LevelMaster: string := "Mestre"
  const LevelIntermediate: string := "Intermediário"
  const LevelApprentice: string := "Aprendiz"
  const ProgressNotFoundMessage: string := "Progress not found"

  /** `getRecentLessons`' default `limit`. */
  const DefaultRecentLimit: int := 5

  datatype Progress = Progress(
    id: nat,
    userKey: string,
    lessonId: int,
    completed: bool,
    favorited: bool,
    notes: Option<string>,
    watchTimeSeconds: int,
    pointsEarned: int,
    lastViewed: int,
    completedAt: Option<int>)

  /** The rows in rowid order and the next AUTOINCREMENT value. */
  datatype ProgressTable = ProgressTable(rows: seq<Progress>, nextId: nat) {
    /** UNIQUE(user_key, lesson_id), and ids strictly increasing and below `nextId`. */
    ghost predicate Valid() {
      && Table.UniqueKeys(rows, PairOf)
      && Table.Chained(rows, IdBefore)
      && forall i :: 0 <= i < |rows| ==> rows[i].id < nextId
    }
  }

  datatype ProgressError = ProgressNotFound

  function PairOf(p: Progress): (string, int) { (p.userKey, p.lessonId) }
  predicate IdBefore(a: Progress, b: Progress) { a.id < b.id }
  function LastViewedOf(p: Progress): int { p.lastViewed }
  function OfUser(u: string): Progress -> bool { (p: Progress) => p.userKey == u }
  function FavoriteOf(u: string): Progress -> bool { (p: Progress) => p.userKey == u && p.favorited }

  /** The row rewrites of the four writers. */
  function Watched(seconds: int, now: int): Progress -> Progress {
    (p: Progress) => p.(watchTimeSeconds := seconds, lastViewed := now)
  }
  function FlipFavorite(p: Progress): Progress { p.(favorited := !p.favorited) }
  function WithNotes(text: string): Progress -> Progress {
    (p: Progress) => p.(notes := Some(text))
  }
  function Completed(award: int, now: int): Progress -> Progress {
    (p: Progress) => p.(completed := true, pointsEarned := award, completedAt := Some(now))
  }

  /** `getProgress`: the row of (u, l), or `undefined`. */
  function GetProgress(t: ProgressTable, u: string, l: int): (r: Option<Progress>)
    ensures r.Some? ==> r.value in t.rows && r.value.userKey == u && r.value.lessonId == l
    ensures r.None? <==> forall i :: 0 <= i < |t.rows| ==> PairOf(t.rows[i]) != (u, l)
  {
    Table.Find(t.rows, PairOf, (u, l))
  }

  /** A row written by an operation that does not care about the others: keeps its
      pair and id. */
  ghost predicate KeepsIdentity(f: Progress -> Progress) {
    forall x :: PairOf(f(x)) == PairOf(x) && f(x).id == x.id
  }

  /** The read-then-write shape shared by every progress write: an existing row is
      rewritten by `f`, a missing one is inserted as `inserted`. */
  function Upsert(t: ProgressTable, u: string, l: int, f: Progress -> Progress, inserted: Progress): (r: ProgressTable)
    requires KeepsIdentity(f)
    requires PairOf(inserted) == (u, l) && inserted.id == t.nextId
    ensures GetProgress(t, u, l).Some? ==> GetProgress(r, u, l) == Some(f(GetProgress(t, u, l).value))
    ensures GetProgress(t, u, l).None? ==> GetProgress(r, u, l) == Some(inserted)
    ensures forall u', l' :: (u', l') != (u, l) ==> GetProgress(r, u', l') == GetProgress(t, u', l')
    ensures t.Valid() ==> r.Valid()
  {
    if GetProgress(t, u, l).Some? then
      UpdateRow(t, u, l, f);
      ProgressTable(Table.Update(t.rows, PairOf, (u, l), f), t.nextId)
    else
      InsertRow(t, u, l, inserted);
      ProgressTable(t.rows + [inserted], t.nextId + 1)
  }

  /** The update half of `Upsert`. */
  lemma UpdateRow(t: ProgressTable, u: string, l: int, f: Progress -> Progress)
    requires KeepsIdentity(f) && GetProgress(t, u, l).Some?
    ensures var r := ProgressTable(Table.Update(t.rows, PairOf, (u, l), f), t.nextId);
      && GetProgress(r, u, l) == Some(f(GetProgress(t, u, l).value))
      && (forall u', l' :: (u', l') != (u, l) ==> GetProgress(r, u', l') == GetProgress(t, u', l'))
      && (t.Valid() ==> r.Valid())
  {
    var r := ProgressTable(Table.Update(t.rows, PairOf, (u, l), f), t.nextId);
    Table.FindAfterUpdate(t.rows, PairOf, (u, l), f, (u, l));
    forall u', l' | (u', l') != (u, l)
      ensures GetProgress(r, u', l') == GetProgress(t, u', l')
    {
      Table.FindAfterUpdate(t.rows, PairOf, (u, l), f, (u', l'));
    }
    UpdateRowValid(t, (u, l), f);
  }

  /** Rewriting rows without touching their pair or id keeps the constraints. */
  lemma UpdateRowValid(t: ProgressTable, k: (string, int), f: Progress -> Progress)
    requires KeepsIdentity(f)
    ensures t.Valid() ==> ProgressTable(Table.Update(t.rows, PairOf, k, f), t.nextId).Valid()
  {
    var r := Table.Update(t.rows, PairOf, k, f);
    if t.Valid() {
      Table.UpdateKeepsKeys(t.rows, PairOf, k, f);
      assert forall i :: 0 <= i < |r| ==> r[i].id == t.rows[i].id;
    }
  }

  /** The insert half of `Upsert`. */
  lemma InsertRow(t: ProgressTable, u: string, l: int, inserted: Progress)
    requires PairOf(inserted) == (u, l) && inserted.id == t.nextId
    requires GetProgress(t, u, l).None?
    ensures var r := ProgressTable(t.rows + [inserted], t.nextId + 1);
      && GetProgress(r, u, l) == Some(inserted)
      && (forall u', l' :: (u', l') != (u, l) ==> GetProgress(r, u', l') == GetProgress(t, u', l'))
      && (t.Valid() ==> r.Valid())
  {
    var r := ProgressTable(t.rows + [inserted], t.nextId + 1);
    Table.FindAfterAppend(t.rows, PairOf, inserted, (u, l));
    forall u', l' | (u', l') != (u, l)
      ensures GetProgress(r, u', l') == GetProgress(t, u', l')
    {
      Table.FindAfterAppend(t.rows, PairOf, inserted, (u', l'));
    }
    InsertRowValid(t, inserted);
  }

  /** Appending a row with a fresh pair under the next id keeps the constraints. */
  lemma InsertRowValid(t: ProgressTable, inserted: Progress)
    requires inserted.id == t.nextId
    requires forall i :: 0 <= i < |t.rows| ==> PairOf(t.rows[i]) != PairOf(inserted)
    ensures t.Valid() ==> ProgressTable(t.rows + [inserted], t.nextId + 1).Valid()
  {
  }

  /** `updateWatchTime`: the row of (u, l) ends up with exactly `seconds` (overwritten, not
      added) and `last_viewed = now`; an existing row changes in no other field, a new row
      takes the column defaults. No other row changes. */
  function UpdateWatchTime(t: ProgressTable, u: string, l: int, seconds: int, now: int): (r: ProgressTable)
    ensures GetProgress(r, u, l).Some?
    ensures GetProgress(r, u, l).value.watchTimeSeconds == seconds && GetProgress(r, u, l).value.lastViewed == now
    ensures GetProgress(t, u, l).Some? ==>
      GetProgress(r, u, l).value == GetProgress(t, u, l).value.(watchTimeSeconds := seconds, lastViewed := now)
    ensures GetProgress(t, u, l).None? ==>
      var p := GetProgress(r, u, l).value;
      !p.completed && !p.favorited && p.pointsEarned == 0 && p.notes.None? && p.completedAt.None?
    ensures forall u', l' :: (u', l') != (u, l) ==> GetProgress(r, u', l') == GetProgress(t, u', l')
    ensures t.Valid() ==> r.Valid()
  {
    Upsert(t, u, l,
      Watched(seconds, now),
      Progress(t.nextId, u, l, false, false, None, seconds, 0, now, None))
  }

  /** The award rule: `watch_time_seconds / 60 >= minWatchTime` in floating point, which for
      whole seconds and minutes is `watch_time_seconds >= 60 * minWatchTime`. */
  function PointsToAward(watchTimeSeconds: int, lessonPoints: int, minWatchTime: int): (r: int)
    ensures watchTimeSeconds >= 60 * minWatchTime ==> r == lessonPoints
    ensures watchTimeSeconds < 60 * minWatchTime ==> r == 0
  {
    var watchTimeMinutes: real := (watchTimeSeconds as real) / 60.0;
    if watchTimeMinutes >= minWatchTime as real then lessonPoints else 0
  }

  /** `markAsCompleted`: fails with "Progress not found" when (u, l) has no row (nothing
      changes); otherwise sets `completed`, `completed_at = now` and OVERWRITES
      `points_earned` with the lesson's points when the watch time reaches the minimum, else
      with 0. The watch time and every other row stay as they were. */
  function MarkAsCompleted(t: ProgressTable, u: string, l: int, lessonPoints: int, minWatchTime: int, now: int)
    : (r: Result<ProgressTable, ProgressError>)
    ensures r.Failure? <==> GetProgress(t, u, l).None?
    ensures r.Success? ==>
      var prev := GetProgress(t, u, l).value;
      var award := if prev.watchTimeSeconds >= 60 * minWatchTime then lessonPoints else 0;
      GetProgress(r.value, u, l) == Some(prev.(completed := true, pointsEarned := award, completedAt := Some(now)))
    ensures r.Success? ==> forall u', l' :: (u', l') != (u, l) ==> GetProgress(r.value, u', l') == GetProgress(t, u', l')
    ensures r.Success? && t.Valid() ==> r.value.Valid()
  {
    match GetProgress(t, u, l)
    case None => Failure(ProgressNotFound)
    case Some(p) =>
      var award := PointsToAward(p.watchTimeSeconds, lessonPoints, minWatchTime);
      var f := Completed(award, now);
      UpdateRow(t, u, l, f);
      Success(ProgressTable(Table.Update(t.rows, PairOf, (u, l), f), t.nextId))
  }

  /** 300 s against a 10-minute minimum earns nothing; 600 s earns the lesson's points. */
  lemma AwardExamples(lessonPoints: int)
    ensures PointsToAward(300, lessonPoints, 10) == 0
    ensures PointsToAward(600, lessonPoints, 10) == lessonPoints
  {
  }

  /** Completing twice with the same arguments is completing once: points are overwritten,
      never accumulated. */
  lemma MarkAsCompletedIdempotent(t: ProgressTable, u: string, l: int, lessonPoints: int, minWatchTime: int, now: int)
    requires MarkAsCompleted(t, u, l, lessonPoints, minWatchTime, now).Success?
    ensures
      var once := MarkAsCompleted(t, u, l, lessonPoints, minWatchTime, now).value;
      MarkAsCompleted(once, u, l, lessonPoints, minWatchTime, now) == Success(once)
  {
    var p := GetProgress(t, u, l).value;
    var award := PointsToAward(p.watchTimeSeconds, lessonPoints, minWatchTime);
    var f := Completed(award, now);
    var once := MarkAsCompleted(t, u, l, lessonPoints, minWatchTime, now).value;
    assert once.rows == Table.Update(t.rows, PairOf, (u, l), f);
    var twice := MarkAsCompleted(once, u, l, lessonPoints, minWatchTime, now).value;
    assert GetProgress(once, u, l).value.watchTimeSeconds == p.watchTimeSeconds;
    assert twice.rows == Table.Update(once.rows, PairOf, (u, l), f);
    assert twice.rows == once.rows;
  }

  /** Earned points can go down: completing after a smaller watch time was reported
      replaces the earlier award with 0. */
  lemma PointsCanRegress(t: ProgressTable, u: string, l: int, lessonPoints: int, minWatchTime: int, seconds: int, t1: int, t2: int, t3: int)
    requires GetProgress(t, u, l).Some? && GetProgress(t, u, l).value.watchTimeSeconds >= 60 * minWatchTime
    requires seconds < 60 * minWatchTime
    ensures
      var first := MarkAsCompleted(t, u, l, lessonPoints, minWatchTime, t1).value;
      var second := MarkAsCompleted(UpdateWatchTime(first, u, l, seconds, t2), u, l, lessonPoints, minWatchTime, t3).value;
      GetProgress(first, u, l).value.pointsEarned == lessonPoints && GetProgress(second, u, l).value.pointsEarned == 0
  {
  }

  /** `toggleFavorite`: an existing row has only `favorited` negated; a missing one is
      inserted with `favorited` set. No other row changes. */
  function ToggleFavorite(t: ProgressTable, u: string, l: int, now: int): (r: ProgressTable)
    ensures GetProgress(r, u, l).Some?
    ensures GetProgress(t, u, l).Some? ==>
      GetProgress(r, u, l).value == GetProgress(t, u, l).value.(favorited := !GetProgress(t, u, l).value.favorited)
    ensures GetProgress(t, u, l).None? ==>
      var p := GetProgress(r, u, l).value;
      p.favorited && !p.completed && p.watchTimeSeconds == 0 && p.pointsEarned == 0 && p.notes.None?
    ensures forall u', l' :: (u', l') != (u, l) ==> GetProgress(r, u', l') == GetProgress(t, u', l')
    ensures t.Valid() ==> r.Valid()
  {
    Upsert(t, u, l,
      FlipFavorite,
      Progress(t.nextId, u, l, false, true, None, 0, 0, now, None))
  }

  /** On a fresh pair the first toggle favorites and the second unfavorites. */
  lemma ToggleFavoriteFreshPair(t: ProgressTable, u: string, l: int, t1: int, t2: int)
    requires GetProgress(t, u, l).None?
    ensures GetProgress(ToggleFavorite(t, u, l, t1), u, l).value.favorited
    ensures !GetProgress(ToggleFavorite(ToggleFavorite(t, u, l, t1), u, l, t2), u, l).value.favorited
  {
  }

  /** On an existing row two toggles restore the table. */
  lemma ToggleFavoriteTwice(t: ProgressTable, u: string, l: int, t1: int, t2: int)
    requires GetProgress(t, u, l).Some?
    ensures ToggleFavorite(ToggleFavorite(t, u, l, t1), u, l, t2) == t
  {
    var once := ToggleFavorite(t, u, l, t1);
    assert once.rows == Table.Update(t.rows, PairOf, (u, l), FlipFavorite);
    assert ToggleFavorite(once, u, l, t2).rows == Table.Update(once.rows, PairOf, (u, l), FlipFavorite);
    Table.UpdateTwice(t.rows, PairOf, (u, l), FlipFavorite);
  }

  /** `saveNotes`: the notes of (u, l) become exactly `text` (even `''`); an existing row
      changes in no other field, a new one takes the column defaults. */
  function SaveNotes(t: ProgressTable, u: string, l: int, text: string, now: int): (r: ProgressTable)
    ensures GetProgress(r, u, l).Some? && GetProgress(r, u, l).value.notes == Some(text)
    ensures GetProgress(t, u, l).Some? ==>
      GetProgress(r, u, l).value == GetProgress(t, u, l).value.(notes := Some(text))
    ensures GetProgress(t, u, l).None? ==>
      var p := GetProgress(r, u, l).value;
      !p.favorited && !p.completed && p.watchTimeSeconds == 0 && p.pointsEarned == 0
    ensures forall u', l' :: (u', l') != (u, l) ==> GetProgress(r, u', l') == GetProgress(t, u', l')
    ensures t.Valid() ==> r.Valid()
  {
    Upsert(t, u, l,
      WithNotes(text),
      Progress(t.nextId, u, l, false, false, Some(text), 0, 0, now, None))
  }

  /** The points of `u`'s rows added up: the reference total. */
  function SumPoints(rows: seq<Progress>, u: string): int
  {
    if |rows| == 0 then 0
    else (if rows[0].userKey == u then rows[0].pointsEarned else 0) + SumPoints(rows[1..], u)
  }

  /** SQL `SUM(points_earned)` over the rows of `u`: NULL when there is no such row. */
  function SumOrNull(rows: seq<Progress>, u: string): Option<int>
  {
    if |rows| == 0 then None
    else
      var rest := SumOrNull(rows[1..], u);
      if rows[0].userKey != u then rest else Some(rows[0].pointsEarned + rest.GetOr(0))
  }

  /** `getUserPoints`: `SUM(points_earned) || 0`, which is the plain total of `u`'s rows
      (0 when `u` has none); never negative while every row's points are not. */
  function GetUserPoints(t: ProgressTable, u: string): (r: int)
    ensures r == SumPoints(t.rows, u)
    ensures (forall i :: 0 <= i < |t.rows| ==> t.rows[i].userKey != u) ==> r == 0
    ensures (forall i :: 0 <= i < |t.rows| ==> t.rows[i].pointsEarned >= 0) ==> r >= 0
  {
    SumOrNullIsSum(t.rows, u);
    SumPointsBounds(t.rows, u);
    NumberOr(SumOrNull(t.rows, u), 0)
  }

  lemma {:induction false} SumOrNullIsSum(rows: seq<Progress>, u: string)
    ensures SumOrNull(rows, u).GetOr(0) == SumPoints(rows, u)
  {
    if |rows| > 0 {
      SumOrNullIsSum(rows[1..], u);
    }
  }

  lemma {:induction false} SumPointsBounds(rows: seq<Progress>, u: string)
    ensures (forall i :: 0 <= i < |rows| ==> rows[i].userKey != u) ==> SumPoints(rows, u) == 0
    ensures (forall i :: 0 <= i < |rows| ==> rows[i].pointsEarned >= 0) ==> SumPoints(rows, u) >= 0
  {
    if |rows| > 0 {
      SumPointsBounds(rows[1..], u);
    }
  }

  lemma {:induction false} SumPointsAppend(rows: seq<Progress>, x: Progress, u: string)
    ensures SumPoints(rows + [x], u) == SumPoints(rows, u) + (if x.userKey == u then x.pointsEarned else 0)
  {
    if |rows| > 0 {
      assert (rows + [x])[1..] == rows[1..] + [x];
      SumPointsAppend(rows[1..], x, u);
    }
  }

  /** Rewriting rows without touching their user or points keeps every user's sum. */
  lemma {:induction false} SumPointsUpdateNeutral(rows: seq<Progress>, k: (string, int), f: Progress -> Progress, u: string)
    requires forall x :: f(x).userKey == x.userKey && f(x).pointsEarned == x.pointsEarned
    ensures SumPoints(Table.Update(rows, PairOf, k, f), u) == SumPoints(rows, u)
  {
    if |rows| > 0 {
      assert Table.Update(rows, PairOf, k, f)[1..] == Table.Update(rows[1..], PairOf, k, f);
      SumPointsUpdateNeutral(rows[1..], k, f, u);
    }
  }

  /** Rewriting the one row of pair `k` changes its user's sum by the change of that row's points. */
  lemma {:induction false} SumPointsUpdateOne(rows: seq<Progress>, k: (string, int), f: Progress -> Progress, u: string)
    requires Table.UniqueKeys(rows, PairOf)
    requires forall x :: PairOf(f(x)) == PairOf(x)
    requires Table.Find(rows, PairOf, k).Some?
    ensures var x := Table.Find(rows, PairOf, k).value;
      SumPoints(Table.Update(rows, PairOf, k, f), u) ==
        SumPoints(rows, u) + (if k.0 == u then f(x).pointsEarned - x.pointsEarned else 0)
  {
    var up := Table.Update(rows, PairOf, k, f);
    assert up[1..] == Table.Update(rows[1..], PairOf, k, f);
    if PairOf(rows[0]) == k {
      assert Table.Find(rows[1..], PairOf, k).None? by {
        forall i | 0 <= i < |rows[1..]|
          ensures PairOf(rows[1..][i]) != k
        {
          assert rows[1..][i] == rows[i + 1];
        }
      }
      assert Table.Update(rows[1..], PairOf, k, f) == rows[1..];
    } else {
      assert Table.UniqueKeys(rows[1..], PairOf);
      SumPointsUpdateOne(rows[1..], k, f, u);
    }
  }

  /** Watch time, favorites and notes never change anybody's points. */
  lemma PointsUnchangedByViewing(t: ProgressTable, u: string, l: int, seconds: int, text: string, now: int, v: string)
    ensures GetUserPoints(UpdateWatchTime(t, u, l, seconds, now), v) == GetUserPoints(t, v)
    ensures GetUserPoints(ToggleFavorite(t, u, l, now), v) == GetUserPoints(t, v)
    ensures GetUserPoints(SaveNotes(t, u, l, text, now), v) == GetUserPoints(t, v)
  {
    if GetProgress(t, u, l).Some? {
      SumPointsUpdateNeutral(t.rows, (u, l), Watched(seconds, now), v);
      SumPointsUpdateNeutral(t.rows, (u, l), FlipFavorite, v);
      SumPointsUpdateNeutral(t.rows, (u, l), WithNotes(text), v);
    } else {
      SumPointsAppend(t.rows, Progress(t.nextId, u, l, false, false, None, seconds, 0, now, None), v);
      SumPointsAppend(t.rows, Progress(t.nextId, u, l, false, true, None, 0, 0, now, None), v);
      SumPointsAppend(t.rows, Progress(t.nextId, u, l, false, false, Some(text), 0, 0, now, None), v);
    }
  }

  /** Completing (u, l) moves `u`'s total by the change of that row's points and leaves every
      other user's total alone. */
  lemma PointsAfterCompletion(t: ProgressTable, u: string, l: int, lessonPoints: int, minWatchTime: int, now: int, v: string)
    requires t.Valid()
    requires MarkAsCompleted(t, u, l, lessonPoints, minWatchTime, now).Success?
    ensures var prev := GetProgress(t, u, l).value;
      var r := MarkAsCompleted(t, u, l, lessonPoints, minWatchTime, now).value;
      var award := if prev.watchTimeSeconds >= 60 * minWatchTime then lessonPoints else 0;
      GetUserPoints(r, v) == GetUserPoints(t, v) + (if v == u then award - prev.pointsEarned else 0)
  {
    var prev := GetProgress(t, u, l).value;
    var award := PointsToAward(prev.watchTimeSeconds, lessonPoints, minWatchTime);
    var r := MarkAsCompleted(t, u, l, lessonPoints, minWatchTime, now).value;
    assert r.rows == Table.Update(t.rows, PairOf, (u, l), Completed(award, now));
    SumPointsUpdateOne(t.rows, (u, l), Completed(award, now), v);
  }

  /** `getUserLevel`: three tiers with inclusive lower bounds 51 and 151. */
  function GetUserLevel(points: int): (r: string)
    ensures r == LevelMaster <==> points >= 151
    ensures r == LevelIntermediate <==> 51 <= points <= 150
    ensures r == LevelApprentice <==> points <= 50
  {
    if points >= 151 then LevelMaster
    else if points >= 51 then LevelIntermediate
    else LevelApprentice
  }

  function LevelRank(level: string): nat {
    if level == LevelMaster then 2 else if level == LevelIntermediate then 1 else 0
  }

  /** More points never mean a lower level. */
  lemma LevelMonotone(p: int, q: int)
    requires p <= q
    ensures LevelRank(GetUserLevel(p)) <= LevelRank(GetUserLevel(q))
  {
  }


  /** The lesson ids of a sequence of rows, in order. */
  function LessonIds(s: seq<Progress>): (r: seq<int>)
    ensures |r| == |s| && forall i :: 0 <= i < |s| ==> r[i] == s[i].lessonId
  {
    seq(|s|, i requires 0 <= i < |s| => s[i].lessonId)
  }

  /** `ORDER BY last_viewed DESC` over the rows satisfying `p`. */
  function ByRecency(t: ProgressTable, p: Progress -> bool): (s: seq<Progress>)
    ensures forall i, j :: 0 <= i < j < |s| ==> s[i].lastViewed >= s[j].lastViewed
    ensures multiset(s) == multiset(Table.Filter(t.rows, p))
    ensures |s| == |Table.Filter(t.rows, p)|
  {
    Sorting.SortDescBy(Table.Filter(t.rows, p), LastViewedOf)
  }

  function LessonIdOf(p: Progress): int { p.lessonId }

  /** Under the UNIQUE constraint, each row of `u` that `p` selects is the row
      `getProgress(u, ·)` finds, and no lesson appears twice. */
  lemma {:induction false} RecencyRows(t: ProgressTable, u: string, p: Progress -> bool)
    requires t.Valid()
    requires forall x :: p(x) ==> x.userKey == u
    ensures var s := ByRecency(t, p);
      && (forall i :: 0 <= i < |s| ==> p(s[i]) && GetProgress(t, u, s[i].lessonId) == Some(s[i]))
      && Sorting.Distinct(s, LessonIdOf)
  {
    var f := Table.Filter(t.rows, p);
    var s := ByRecency(t, p);
    forall i | 0 <= i < |s|
      ensures p(s[i]) && GetProgress(t, u, s[i].lessonId) == Some(s[i])
    {
      assert s[i] in multiset(f);
      assert s[i] in t.rows;
      var m :| 0 <= m < |t.rows| && t.rows[m] == s[i];
      Table.FindUnique(t.rows, PairOf, m);
    }
    Table.FilterKeepsUnique(t.rows, p, PairOf);
    forall i, j | 0 <= i < j < |f|
      ensures LessonIdOf(f[i]) != LessonIdOf(f[j])
    {
      assert f[i] in t.rows && f[j] in t.rows;
      assert PairOf(f[i]) != PairOf(f[j]);
    }
    Sorting.SortKeepsDistinct(f, Sorting.Desc(LastViewedOf), LessonIdOf);
  }

  /** Every selected row of `u` has a place in the recency order. */
  lemma Located(t: ProgressTable, u: string, p: Progress -> bool, l: int) returns (q: nat)
    requires GetProgress(t, u, l).Some? && p(GetProgress(t, u, l).value)
    ensures q < |ByRecency(t, p)| && ByRecency(t, p)[q] == GetProgress(t, u, l).value
  {
    var x := GetProgress(t, u, l).value;
    assert x in Table.Filter(t.rows, p);
    q := Sorting.PositionInSorted(Table.Filter(t.rows, p), Sorting.Desc(LastViewedOf), x);
  }

  /** The first `n` lessons by recency among the rows of `u` that `p` selects: each is a
      lesson of `u` whose row `p` selects, none repeats, they come most recent first, none
      left out was viewed later than one kept, and with `n` the full count none is left out. */
  lemma RecencyPrefix(t: ProgressTable, u: string, p: Progress -> bool, n: nat)
    requires t.Valid()
    requires forall x :: p(x) ==> x.userKey == u
    requires n <= |ByRecency(t, p)|
    ensures var s := ByRecency(t, p);
      var r := LessonIds(s[..n]);
      && (forall i :: 0 <= i < |r| ==> GetProgress(t, u, r[i]) == Some(s[i]) && p(s[i]))
      && (forall i, j :: 0 <= i < j < |r| ==> r[i] != r[j])
      && (forall l, i :: GetProgress(t, u, l).Some? && p(GetProgress(t, u, l).value) && l !in r && 0 <= i < |r| ==>
            GetProgress(t, u, l).value.lastViewed <= s[i].lastViewed)
      && (n == |s| ==> forall l :: GetProgress(t, u, l).Some? && p(GetProgress(t, u, l).value) ==> l in r)
  {
    PrefixRows(t, u, p, n);
    PrefixTop(t, u, p, n);
    if n == |ByRecency(t, p)| {
      PrefixComplete(t, u, p, n);
    }
  }

  lemma PrefixRows(t: ProgressTable, u: string, p: Progress -> bool, n: nat)
    requires t.Valid()
    requires forall x :: p(x) ==> x.userKey == u
    requires n <= |ByRecency(t, p)|
    ensures var s := ByRecency(t, p);
      var r := LessonIds(s[..n]);
      && (forall i :: 0 <= i < |r| ==> GetProgress(t, u, r[i]) == Some(s[i]) && p(s[i]))
      && (forall i, j :: 0 <= i < j < |r| ==> r[i] != r[j])
  {
    var s := ByRecency(t, p);
    var r := LessonIds(s[..n]);
    RecencyRows(t, u, p);
    forall i, j | 0 <= i < j < |r|
      ensures r[i] != r[j]
    {
      assert LessonIdOf(s[i]) != LessonIdOf(s[j]);
    }
  }

  lemma PrefixTop(t: ProgressTable, u: string, p: Progress -> bool, n: nat)
    requires n <= |ByRecency(t, p)|
    ensures var s := ByRecency(t, p);
      var r := LessonIds(s[..n]);
      forall l, i :: GetProgress(t, u, l).Some? && p(GetProgress(t, u, l).value) && l !in r && 0 <= i < |r| ==>
        GetProgress(t, u, l).value.lastViewed <= s[i].lastViewed
  {
    var s := ByRecency(t, p);
    var r := LessonIds(s[..n]);
    forall l, i | GetProgress(t, u, l).Some? && p(GetProgress(t, u, l).value) && l !in r && 0 <= i < |r|
      ensures GetProgress(t, u, l).value.lastViewed <= s[i].lastViewed
    {
      var q := Located(t, u, p, l);
      assert q >= n;
    }
  }

  lemma PrefixComplete(t: ProgressTable, u: string, p: Progress -> bool, n: nat)
    requires n == |ByRecency(t, p)|
    ensures var r := LessonIds(ByRecency(t, p)[..n]);
      forall l :: GetProgress(t, u, l).Some? && p(GetProgress(t, u, l).value) ==> l in r
  {
    var s := ByRecency(t, p);
    var r := LessonIds(s[..n]);
    forall l | GetProgress(t, u, l).Some? && p(GetProgress(t, u, l).value)
      ensures l in r
    {
      var q := Located(t, u, p, l);
      assert r[q] == l;
    }
  }

  /** `getRecentLessons`: the lesson ids of `u`'s rows, most recently viewed first, at most
      `limit` of them (SQLite reads a negative `LIMIT` as no limit); a lesson left out was
      never viewed later than one returned. */
  function GetRecentLessons(t: ProgressTable, u: string, limit: int): (r: seq<int>)
    ensures var n := |Table.Filter(t.rows, OfUser(u))|;
      |r| == if limit < 0 || limit >= n then n else limit
    ensures t.Valid() ==>
      && (forall i :: 0 <= i < |r| ==> GetProgress(t, u, r[i]).Some?)
      && (forall i, j :: 0 <= i < j < |r| ==> r[i] != r[j])
      && (forall i, j :: 0 <= i < j < |r| ==>
            GetProgress(t, u, r[i]).value.lastViewed >= GetProgress(t, u, r[j]).value.lastViewed)
      && (forall l, i :: GetProgress(t, u, l).Some? && l !in r && 0 <= i < |r| ==>
            GetProgress(t, u, l).value.lastViewed <= GetProgress(t, u, r[i]).value.lastViewed)
  {
    var s := ByRecency(t, OfUser(u));
    var n := if limit < 0 || limit >= |s| then |s| else limit;
    RecentFacts(t, u, n);
    LessonIds(s[..n])
  }

  /** The ids of the `n` most recent rows of `u` have the properties `getRecentLessons` promises. */
  lemma RecentFacts(t: ProgressTable, u: string, n: nat)
    requires n <= |ByRecency(t, OfUser(u))|
    ensures var r := LessonIds(ByRecency(t, OfUser(u))[..n]);
      t.Valid() ==>
      && (forall i :: 0 <= i < |r| ==> GetProgress(t, u, r[i]).Some?)
      && (forall i, j :: 0 <= i < j < |r| ==> r[i] != r[j])
      && (forall i, j :: 0 <= i < j < |r| ==>
            GetProgress(t, u, r[i]).value.lastViewed >= GetProgress(t, u, r[j]).value.lastViewed)
      && (forall l, i :: GetProgress(t, u, l).Some? && l !in r && 0 <= i < |r| ==>
            GetProgress(t, u, l).value.lastViewed <= GetProgress(t, u, r[i]).value.lastViewed)
  {
    if t.Valid() {
      RecentValid(t, u, n);
    }
  }

  lemma RecentValid(t: ProgressTable, u: string, n: nat)
    requires t.Valid() && n <= |ByRecency(t, OfUser(u))|
    ensures var r := LessonIds(ByRecency(t, OfUser(u))[..n]);
      && (forall i :: 0 <= i < |r| ==> GetProgress(t, u, r[i]).Some?)
      && (forall i, j :: 0 <= i < j < |r| ==> r[i] != r[j])
      && (forall i, j :: 0 <= i < j < |r| ==>
            GetProgress(t, u, r[i]).value.lastViewed >= GetProgress(t, u, r[j]).value.lastViewed)
      && (forall l, i :: GetProgress(t, u, l).Some? && l !in r && 0 <= i < |r| ==>
            GetProgress(t, u, l).value.lastViewed <= GetProgress(t, u, r[i]).value.lastViewed)
  {
    RecencyPrefix(t, u, OfUser(u), n);
  }

  /** `getFavoriteLessons`: exactly the lessons `u` has favorited, each once, most recently
      viewed first. */
  function GetFavoriteLessons(t: ProgressTable, u: string): (r: seq<int>)
    ensures t.Valid() ==>
      && (forall l :: l in r <==> GetProgress(t, u, l).Some? && GetProgress(t, u, l).value.favorited)
      && (forall i, j :: 0 <= i < j < |r| ==> r[i] != r[j])
      && (forall i, j :: 0 <= i < j < |r| ==>
            GetProgress(t, u, r[i]).value.lastViewed >= GetProgress(t, u, r[j]).value.lastViewed)
  {
    FavoriteFacts(t, u);
    LessonIds(ByRecency(t, FavoriteOf(u)))
  }

  /** The ids of `u`'s favorited rows by recency have the properties `getFavoriteLessons` promises. */
  lemma FavoriteFacts(t: ProgressTable, u: string)
    ensures var r := LessonIds(ByRecency(t, FavoriteOf(u)));
      t.Valid() ==>
      && (forall l :: l in r <==> GetProgress(t, u, l).Some? && GetProgress(t, u, l).value.favorited)
      && (forall i, j :: 0 <= i < j < |r| ==> r[i] != r[j])
      && (forall i, j :: 0 <= i < j < |r| ==>
            GetProgress(t, u, r[i]).value.lastViewed >= GetProgress(t, u, r[j]).value.lastViewed)
  {
    var s := ByRecency(t, FavoriteOf(u));
    var r := LessonIds(s);
    if t.Valid() {
      assert s[..|s|] == s;
      RecencyPrefix(t, u, FavoriteOf(u), |s|);
      assert forall i :: 0 <= i < |r| ==> GetProgress(t, u, r[i]) == Some(s[i]);
    }
  }

}
