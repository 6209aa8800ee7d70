/** The `lessons` table (lib/models/lessons.ts): lesson metadata, a display order
    (`order_num`, ties allowed), a reward in points and a minimum watch time in minutes. */
module Lessons {
  import opened Common
  import Table
  import Sorting

  /** `points || 10` and `min_watch_time || 10` in `createLesson`, and the columns' own
      `DEFAULT 10`. */
  const DefaultPoints: int := 10
  const DefaultMinWatchTime: int := 10

  datatype Lesson = Lesson(
    id: nat,
    title: string,
    videoId: string,
    coverImage: Option<string>,
    sealDifficulty: Option<string>,
    sealTimeValue: Option<string>,
    sealTimeColor: Option<string>,
    description: Option<string>,
    materials: Option<string>,
    steps: Option<string>,
    orderNum: int,
    points: int,
    minWatchTime: int,
    createdAt: int)

  /** The rows in rowid order and the next AUTOINCREMENT value. */
  datatype LessonTable = LessonTable(rows: seq<Lesson>, nextId: nat) {
    /** Ids strictly increasing in rowid order and below `nextId`. */
    ghost predicate Valid() {
      && Table.Chained(rows, IdBefore)
      && forall i :: 0 <= i < |rows| ==> rows[i].id < nextId
    }
  }

  /** `CreateLessonData`: the optional fields may be absent. */
  datatype NewLesson = NewLesson(
    title: string,
    videoId: string,
    coverImage: Option<string>,
    sealDifficulty: Option<string>,
    sealTimeValue: Option<string>,
    sealTimeColor: Option<string>,
    description: Option<string>,
    materials: Option<string>,
    steps: Option<string>,
    orderNum: int,
    points: Option<int>,
    minWatchTime: Option<int>)

  /** `UpdateLessonData`: `None` is a field left `undefined`. */
  datatype LessonPatch = LessonPatch(
    title: Option<string>,
    videoId: Option<string>,
    coverImage: Option<string>,
    sealDifficulty: Option<string>,
    sealTimeValue: Option<string>,
    sealTimeColor: Option<string>,
    description: Option<string>,
    materials: Option<string>,
    steps: Option<string>,
    orderNum: Option<int>,
    points: Option<int>,
    minWatchTime: Option<int>)

  function IdOf(l: Lesson): nat { l.id }
  predicate IdBefore(a: Lesson, b: Lesson) { a.id < b.id }
  function OrderNumOf(l: Lesson): int { l.orderNum }

  /** A valid table has at most one row per id. */
  lemma ValidIdsUnique(t: LessonTable)
    requires t.Valid()
    ensures Table.UniqueKeys(t.rows, IdOf)
  {
  }

  /** `getAllLessons`: every lesson, in ascending `order_num`. */
  function GetAllLessons(t: LessonTable): (r: seq<Lesson>)
    ensures multiset(r) == multiset(t.rows)
    ensures forall i, j :: 0 <= i < j < |r| ==> r[i].orderNum <= r[j].orderNum
  {
    Sorting.SortBy(t.rows, OrderNumOf)
  }

  /** `getLessonById`: the lesson with that id, or `undefined`. */
  function GetLessonById(t: LessonTable, id: nat): (r: Option<Lesson>)
    ensures r.Some? ==> r.value in t.rows && r.value.id == id
    ensures r.None? <==> forall i :: 0 <= i < |t.rows| ==> t.rows[i].id != id
  {
    Table.Find(t.rows, IdOf, id)
  }

  /** Inserts a row under the next AUTOINCREMENT id. */
  function Append(t: LessonTable, row: Lesson): (r: LessonTable)
    requires row.id == t.nextId
    ensures GetLessonById(t, row.id).None? ==> GetLessonById(r, row.id) == Some(row)
    ensures forall id :: id != row.id ==> GetLessonById(r, id) == GetLessonById(t, id)
    ensures t.Valid() ==> r.Valid() && GetLessonById(t, row.id).None?
    ensures |r.rows| == |t.rows| + 1
  {
    var r := LessonTable(t.rows + [row], t.nextId + 1);
    Table.FindAfterAppend(t.rows, IdOf, row, row.id);
    forall id | id != row.id
      ensures GetLessonById(r, id) == GetLessonById(t, id)
    {
      Table.FindAfterAppend(t.rows, IdOf, row, id);
    }
    r
  }

  /** `createLesson`: falsy optional strings are stored as NULL, and `points` and
      `min_watch_time` fall back to 10 when absent or 0. The returned lesson is the
      stored row, under a fresh id. */
  function CreateLesson(t: LessonTable, data: NewLesson, now: int): (r: (LessonTable, Lesson))
    ensures var (t', l) := r;
      && l.id == t.nextId
      && (forall id :: id != l.id ==> GetLessonById(t', id) == GetLessonById(t, id))
      && (t.Valid() ==> t'.Valid() && GetLessonById(t, l.id).None? && GetLessonById(t', l.id) == Some(l))
      && l.title == data.title && l.videoId == data.videoId && l.orderNum == data.orderNum
      && l.coverImage == OrNull(data.coverImage) && l.sealDifficulty == OrNull(data.sealDifficulty)
      && l.sealTimeValue == OrNull(data.sealTimeValue) && l.sealTimeColor == OrNull(data.sealTimeColor)
      && l.description == OrNull(data.description) && l.materials == OrNull(data.materials)
      && l.steps == OrNull(data.steps)
      && (TruthyNumber(data.points) ==> l.points == data.points.value)
      && (!TruthyNumber(data.points) ==> l.points == DefaultPoints)
      && (TruthyNumber(data.minWatchTime) ==> l.minWatchTime == data.minWatchTime.value)
      && (!TruthyNumber(data.minWatchTime) ==> l.minWatchTime == DefaultMinWatchTime)
  {
    var l := Lesson(
      t.nextId, data.title, data.videoId,
      OrNull(data.coverImage), OrNull(data.sealDifficulty), OrNull(data.sealTimeValue),
      OrNull(data.sealTimeColor), OrNull(data.description), OrNull(data.materials), OrNull(data.steps),
      data.orderNum, NumberOr(data.points, DefaultPoints), NumberOr(data.minWatchTime, DefaultMinWatchTime), now);
    (Append(t, l), l)
  }

  /** True when the patch defines no field: `updateLesson` then returns early. */
  predicate PatchIsEmpty(p: LessonPatch) {
    && p.title.None? && p.videoId.None? && p.coverImage.None? && p.sealDifficulty.None?
    && p.sealTimeValue.None? && p.sealTimeColor.None? && p.description.None? && p.materials.None?
    && p.steps.None? && p.orderNum.None? && p.points.None? && p.minWatchTime.None?
  }

  /** The `SET` list of `updateLesson`: each defined field replaces the column as given. */
  function ApplyPatch(l: Lesson, p: LessonPatch): (r: Lesson)
    ensures r.id == l.id && r.createdAt == l.createdAt
  {
    Lesson(
      l.id,
      p.title.GetOr(l.title),
      p.videoId.GetOr(l.videoId),
      if p.coverImage.Some? then p.coverImage else l.coverImage,
      if p.sealDifficulty.Some? then p.sealDifficulty else l.sealDifficulty,
      if p.sealTimeValue.Some? then p.sealTimeValue else l.sealTimeValue,
      if p.sealTimeColor.Some? then p.sealTimeColor else l.sealTimeColor,
      if p.description.Some? then p.description else l.description,
      if p.materials.Some? then p.materials else l.materials,
      if p.steps.Some? then p.steps else l.steps,
      p.orderNum.GetOr(l.orderNum),
      p.points.GetOr(l.points),
      p.minWatchTime.GetOr(l.minWatchTime),
      l.createdAt)
  }

  /** `updateLesson`: an empty patch returns early; otherwise the row with that id gets
      the patch and every other row stays as it was (an unknown id matches nothing). */
  function UpdateLesson(t: LessonTable, id: nat, p: LessonPatch): (r: LessonTable)
    ensures PatchIsEmpty(p) ==> r == t
    ensures GetLessonById(t, id).None? ==> GetLessonById(r, id).None?
    ensures GetLessonById(t, id).Some? ==> GetLessonById(r, id) == Some(ApplyPatch(GetLessonById(t, id).value, p))
    ensures forall id' :: id' != id ==> GetLessonById(r, id') == GetLessonById(t, id')
    ensures |r.rows| == |t.rows| && r.nextId == t.nextId
    ensures t.Valid() ==> r.Valid()
  {
    if PatchIsEmpty(p) then t
    else
      PatchRow(t, id, p);
      LessonTable(Table.Update(t.rows, IdOf, id, PatchWith(p)), t.nextId)
  }

  /** The row rewrite of `updateLesson`. */
  function PatchWith(p: LessonPatch): Lesson -> Lesson {
    (l: Lesson) => ApplyPatch(l, p)
  }

  /** Patching the row with that id finds the patched row there and every other id's row
      as before, and keeps the constraints. */
  lemma PatchRow(t: LessonTable, id: nat, p: LessonPatch)
    ensures var r := LessonTable(Table.Update(t.rows, IdOf, id, PatchWith(p)), t.nextId);
      && (GetLessonById(t, id).None? ==> GetLessonById(r, id).None?)
      && (GetLessonById(t, id).Some? ==> GetLessonById(r, id) == Some(ApplyPatch(GetLessonById(t, id).value, p)))
      && (forall id' :: id' != id ==> GetLessonById(r, id') == GetLessonById(t, id'))
      && (t.Valid() ==> r.Valid())
  {
    var f := PatchWith(p);
    var rows := Table.Update(t.rows, IdOf, id, f);
    Table.FindAfterUpdate(t.rows, IdOf, id, f, id);
    forall id' | id' != id
      ensures Table.Find(rows, IdOf, id') == Table.Find(t.rows, IdOf, id')
    {
      Table.FindAfterUpdate(t.rows, IdOf, id, f, id');
    }
    PatchKeepsValid(t, id, p);
  }

  lemma PatchKeepsValid(t: LessonTable, id: nat, p: LessonPatch)
    ensures t.Valid() ==> LessonTable(Table.Update(t.rows, IdOf, id, PatchWith(p)), t.nextId).Valid()
  {
    var rows := Table.Update(t.rows, IdOf, id, PatchWith(p));
    assert forall i :: 0 <= i < |rows| ==> rows[i].id == t.rows[i].id;
  }

  /** A patch changes exactly the fields it defines, to exactly the given values. */
  lemma PatchChangesOnlyGivenFields(l: Lesson, p: LessonPatch)
    ensures var r := ApplyPatch(l, p);
      && (p.title.Some? ==> r.title == p.title.value) && (p.title.None? ==> r.title == l.title)
      && (p.videoId.Some? ==> r.videoId == p.videoId.value) && (p.videoId.None? ==> r.videoId == l.videoId)
      && (p.coverImage.Some? ==> r.coverImage == p.coverImage) && (p.coverImage.None? ==> r.coverImage == l.coverImage)
      && (p.sealDifficulty.Some? ==> r.sealDifficulty == p.sealDifficulty)
      && (p.sealDifficulty.None? ==> r.sealDifficulty == l.sealDifficulty)
      && (p.sealTimeValue.Some? ==> r.sealTimeValue == p.sealTimeValue)
      && (p.sealTimeValue.None? ==> r.sealTimeValue == l.sealTimeValue)
      && (p.sealTimeColor.Some? ==> r.sealTimeColor == p.sealTimeColor)
      && (p.sealTimeColor.None? ==> r.sealTimeColor == l.sealTimeColor)
      && (p.description.Some? ==> r.description == p.description) && (p.description.None? ==> r.description == l.description)
      && (p.materials.Some? ==> r.materials == p.materials) && (p.materials.None? ==> r.materials == l.materials)
      && (p.steps.Some? ==> r.steps == p.steps) && (p.steps.None? ==> r.steps == l.steps)
      && (p.orderNum.Some? ==> r.orderNum == p.orderNum.value) && (p.orderNum.None? ==> r.orderNum == l.orderNum)
      && (p.points.Some? ==> r.points == p.points.value) && (p.points.None? ==> r.points == l.points)
      && (p.minWatchTime.Some? ==> r.minWatchTime == p.minWatchTime.value) && (p.minWatchTime.None? ==> r.minWatchTime == l.minWatchTime)
  {
  }

  /** Applying the same patch twice is applying it once. */
  lemma PatchIdempotent(t: LessonTable, id: nat, p: LessonPatch)
    ensures forall id' :: GetLessonById(UpdateLesson(UpdateLesson(t, id, p), id, p), id') == GetLessonById(UpdateLesson(t, id, p), id')
  {
  }

  /** An empty string is stored as NULL by `createLesson` but kept as `''` by `updateLesson`. */
  lemma EmptyStringCreateVersusUpdate(t: LessonTable, data: NewLesson, now: int)
    requires t.Valid() && data.description == Some("")
    ensures var (t', l) := CreateLesson(t, data, now);
      && l.description.None?
      && GetLessonById(UpdateLesson(t', l.id, LessonPatch(None, None, None, None, None, None, Some(""), None, None, None, None, None)), l.id).value.description == Some("")
  {
  }

  /** `deleteLesson`: the row with that id is gone, every other row stays. */
  function DeleteLesson(t: LessonTable, id: nat): (r: LessonTable)
    ensures GetLessonById(r, id).None?
    ensures forall id' :: id' != id ==> GetLessonById(r, id') == GetLessonById(t, id')
    ensures GetLessonById(t, id).None? ==> r == t
    ensures t.Valid() ==> r.Valid()
  {
    var r := LessonTable(Table.Delete(t.rows, IdOf, id), t.nextId);
    Table.FindAfterDelete(t.rows, IdOf, id, id);
    forall id' | id' != id
      ensures GetLessonById(r, id') == GetLessonById(t, id')
    {
      Table.FindAfterDelete(t.rows, IdOf, id, id');
    }
    assert t.Valid() ==> r.Valid() by {
      if t.Valid() {
        Table.DeleteKeepsChained(t.rows, IdOf, id, IdBefore);
      }
    }
    r
  }
}
