/** The database as a whole and its start-up seeding (lib/db.ts, `initializeDatabase`).
    The statements run one by one without a transaction, so a statement that fails
    leaves the earlier ones in place and skips the rest. */
module Database {
  import opened Common
  import Table
  import Sorting
  import AccessKeys
  import Lessons
  import UserProgress
  import SiteConfig

  /** The administrator key that an older seed created and the current seed replaces. */
  const LegacyAdminKey: string := "adminadmin123123"
  const SeedAdminOwner: string := "Administrador"

  datatype Db = Db(
    keys: AccessKeys.KeyTable,
    lessons: Lessons.LessonTable,
    progress: UserProgress.ProgressTable,
    config: SiteConfig.ConfigTable)
  {
    ghost predicate Valid() {
      keys.Valid() && lessons.Valid() && progress.Valid()
    }
  }

  /** The database a run leaves behind, and whether the run threw before its end. */
  datatype SeedOutcome = SeedOutcome(db: Db, failed: bool)

  /** A plain `INSERT INTO site_config`: the UNIQUE `config_key` refuses a key that exists. */
  function InsertConfig(c: SiteConfig.ConfigTable, k: string, v: string, now: int): (r: Option<SiteConfig.ConfigTable>)
    ensures r.None? <==> k in c
    ensures r.Some? ==> r.value == c[k := SiteConfig.ConfigEntry(v, now)]
  {
    if k in c then None else Some(c[k := SiteConfig.ConfigEntry(v, now)])
  }

  /** Overlay seed: runs only when there is no URL row. It inserts the URL `''` and then the
      duration `'1500'`; when a duration row already exists the second insert fails, after
      the first one has been stored. */
  function SeedOverlay(c: SiteConfig.ConfigTable, now: int): (r: (SiteConfig.ConfigTable, bool))
    ensures SiteConfig.OverlayImageUrlKey in c ==> r == (c, false)
    ensures SiteConfig.OverlayImageUrlKey !in c && SiteConfig.OverlayDurationKey in c ==>
      r == (c[SiteConfig.OverlayImageUrlKey := SiteConfig.ConfigEntry("", now)], true)
    ensures SiteConfig.OverlayImageUrlKey !in c && SiteConfig.OverlayDurationKey !in c ==>
      && !r.1
      && SiteConfig.GetConfig(r.0, SiteConfig.OverlayImageUrlKey) == Some("")
      && SiteConfig.GetConfig(r.0, SiteConfig.OverlayDurationKey) == Some(SiteConfig.DefaultDurationText)
    ensures forall k :: k != SiteConfig.OverlayImageUrlKey && k != SiteConfig.OverlayDurationKey ==>
      SiteConfig.GetConfig(r.0, k) == SiteConfig.GetConfig(c, k)
    ensures !r.1 ==> SiteConfig.OverlayWellFormed(r.0)
  {
    if SiteConfig.OverlayImageUrlKey in c then (c, false)
    else
      var c1 := InsertConfig(c, SiteConfig.OverlayImageUrlKey, "", now).value;
      var c2 := InsertConfig(c1, SiteConfig.OverlayDurationKey, SiteConfig.DefaultDurationText, now);
      if c2.None? then (c1, true) else (c2.value, false)
  }

  /** The seeded overlay reads as no image shown for 1500 ms. */
  lemma SeededOverlayDefaults(c: SiteConfig.ConfigTable, now: int)
    requires SiteConfig.OverlayImageUrlKey !in c && SiteConfig.OverlayDurationKey !in c
    ensures SiteConfig.GetOverlaySettings(SeedOverlay(c, now).0) == SiteConfig.OverlaySettings("", Some(1500))
  {
    SiteConfig.DefaultDurationValue();
  }

  /** Admin seed: runs only when no row holds `admin2020`. It first deletes the legacy
      administrator key, then inserts `admin2020` as an active administrator. An existing
      `admin2020` row is left exactly as it is, even when deactivated. */
  function SeedAdmin(t: AccessKeys.KeyTable, now: int): (r: AccessKeys.KeyTable)
    requires t.Valid()
    ensures r.Valid()
    ensures AccessKeys.FindByKey(None, t, AccessKeys.ProtectedKey, now).Some? ==> r == t
    ensures AccessKeys.FindByKey(None, t, AccessKeys.ProtectedKey, now).None? ==>
      && AccessKeys.FindByKey(None, r, AccessKeys.ProtectedKey, now)
           == Some(AccessKeys.AccessKey(t.nextId, AccessKeys.ProtectedKey, Some(SeedAdminOwner), true, true, now))
      && AccessKeys.FindByKey(None, r, LegacyAdminKey, now).None?
      && (forall k :: k != AccessKeys.ProtectedKey && k != LegacyAdminKey ==>
            AccessKeys.FindByKey(None, r, k, now) == AccessKeys.FindByKey(None, t, k, now))
  {
    if Table.Find(t.rows, AccessKeys.KeyOf, AccessKeys.ProtectedKey).Some? then t
    else
      var cleared := AccessKeys.KeyTable(Table.Delete(t.rows, AccessKeys.KeyOf, LegacyAdminKey), t.nextId);
      Table.FindAfterDelete(t.rows, AccessKeys.KeyOf, LegacyAdminKey, AccessKeys.ProtectedKey);
      Table.FindAfterDelete(t.rows, AccessKeys.KeyOf, LegacyAdminKey, LegacyAdminKey);
      forall k | k != LegacyAdminKey
        ensures Table.Find(cleared.rows, AccessKeys.KeyOf, k) == Table.Find(t.rows, AccessKeys.KeyOf, k)
      {
        Table.FindAfterDelete(t.rows, AccessKeys.KeyOf, LegacyAdminKey, k);
      }
      Table.DeleteKeepsUnique(t.rows, AccessKeys.KeyOf, LegacyAdminKey, AccessKeys.KeyOf);
      Table.DeleteKeepsChained(t.rows, AccessKeys.KeyOf, LegacyAdminKey, AccessKeys.IdBefore);
      assert cleared.Valid();
      var created := AccessKeys.CreateKey(cleared, AccessKeys.ProtectedKey, Some(SeedAdminOwner), true, now);
      created.value.0
  }

  /** The text columns of the seeded lessons. */
  datatype TextColumn =
    Title | VideoId | CoverImage | SealDifficulty | SealTimeValue | SealTimeColor | Description | Materials | Steps

  /** The seeded lessons' texts: column `c` of lesson `n`. */
  function SeedText(n: nat, c: TextColumn): string
    requires 1 <= n <= 3
  {
    match c
    case Title =>
      if n == 1 then "Aula 1 – Início do Crochê"
      else if n == 2 then "Aula 2 – Praticando os Pontos"
      else "Aula 3 – Projeto Especial"
    case VideoId =>
      if n == 1 then "nkRg5Xsnxis"
      else if n == 2 then "Vxh_ZGPfLHQ"
      else "0fOqf4Vqw0c"
    case CoverImage =>
      if n == 1 then "https://images.unsplash.com/photo-1601758228041-f3b2795255f1?w=800"
      else if n == 2 then "https://images.unsplash.com/photo-1611652022419-a9419f74343a?w=800"
      else "https://images.unsplash.com/photo-1608023136037-626dad6c6188?w=800"
    case SealDifficulty =>
      if n == 1 then "Fácil"
      else if n == 2 then "Médio"
      else "Difícil"
    case SealTimeValue =>
      if n == 1 then "1 Hora"
      else if n == 2 then "2 Horas"
      else "3 Horas"
    case SealTimeColor =>
      if n == 1 then "#51CF66"
      else if n == 2 then "#4ECDC4"
      else "#FF6B6B"
    case Description =>
      if n == 1 then "Nesta primeira aula, você aprenderá os fundamentos do crochê. Vamos começar com os pontos básicos e como segurar a agulha corretamente. Esta é a base para todas as suas futuras criações em crochê."
      else if n == 2 then "Agora que você já conhece os pontos básicos, vamos praticar! Nesta aula, você criará suas primeiras carreiras e aprenderá a manter a tensão uniforme do fio. A prática constante é essencial para aperfeiçoar sua técnica."
      else "Chegou a hora de colocar em prática tudo que você aprendeu! Vamos criar juntos um lindo projeto em crochê. Siga o passo a passo com calma e atenção, e você terá uma peça maravilhosa para usar ou presentear."
    case Materials =>
      if n == 1 then "Agulha de crochê número 4.0 mm, Novelo de linha de algodão (cor de sua preferência), Tesoura"
      else if n == 2 then "Agulha de crochê número 4.0 mm, Dois novelos de linha de algodão (cores contrastantes), Tesoura, Marcador de pontos"
      else "Agulha de crochê número 4.0 mm, Três novelos de linha de algodão (nas cores: branco, rosa e verde), Tesoura, Agulha de tapeçaria para acabamento, Marcador de pontos"
    case Steps =>
      if n == 1 then "Passo 1: Segure a agulha confortavelmente em sua mão dominante.\nPasso 2: Faça o nó inicial deixando uma ponta de aproximadamente 10 cm.\nPasso 3: Pratique o ponto corrente fazendo uma sequência de 20 pontos.\nPasso 4: Observe no vídeo a posição correta das mãos."
      else if n == 2 then "Passo 1: Faça uma base de 30 pontos corrente.\nPasso 2: Retorne fazendo pontos baixos em toda a extensão.\nPasso 3: Faça 10 carreiras mantendo a mesma técnica.\nPasso 4: Observe a tensão do fio - não deve estar muito apertado ou muito solto."
      else "Passo 1: Comece com um anel mágico de 6 pontos.\nPasso 2: Aumente seguindo o padrão mostrado no vídeo.\nPasso 3: Continue por 12 carreiras mantendo o padrão.\nPasso 4: Faça o acabamento costurando as pontas com a agulha de tapeçaria.\nPasso 5: Admire sua criação finalizada!"
  }

  /** The three lessons the seed inserts, in order, with the columns' default reward of 10
      points for 10 minutes. */
  function SeedLesson(n: nat, id: nat, now: int): (l: Lessons.Lesson)
    requires 1 <= n <= 3
    ensures l.id == id && l.orderNum == n && l.createdAt == now
    ensures l.points == Lessons.DefaultPoints && l.minWatchTime == Lessons.DefaultMinWatchTime
  {
    Lessons.Lesson(id, SeedText(n, Title), SeedText(n, VideoId),
      Some(SeedText(n, CoverImage)),
      Some(SeedText(n, SealDifficulty)), Some(SeedText(n, SealTimeValue)), Some(SeedText(n, SealTimeColor)),
      Some(SeedText(n, Description)),
      Some(SeedText(n, Materials)),
      Some(SeedText(n, Steps)),
      n, Lessons.DefaultPoints, Lessons.DefaultMinWatchTime, now)
  }

  /** The three seeded rows under ids `id`, `id + 1`, `id + 2`. */
  function SeedRows(id: nat, now: int): (r: seq<Lessons.Lesson>)
    ensures r == [SeedLesson(1, id, now), SeedLesson(2, id + 1, now), SeedLesson(3, id + 2, now)]
    ensures |r| == 3 && r[0].id == id && r[1].id == id + 1 && r[2].id == id + 2
    ensures r[0].orderNum == 1 && r[1].orderNum == 2 && r[2].orderNum == 3
    ensures Lessons.GetAllLessons(Lessons.LessonTable(r, id + 3)) == r
    ensures Lessons.LessonTable(r, id + 3).Valid()
  {
    var r := [SeedLesson(1, id, now), SeedLesson(2, id + 1, now), SeedLesson(3, id + 2, now)];
    ThreeAscending(r);
    SeedOrder(r);
    ConsecutiveIdsValid(r, id);
    r
  }

  lemma ThreeAscending(r: seq<Lessons.Lesson>)
    requires |r| == 3 && r[0].orderNum <= r[1].orderNum <= r[2].orderNum
    ensures forall i, j :: 0 <= i < j < |r| ==> r[i].orderNum <= r[j].orderNum
  {
  }

  /** Three rows under consecutive ids make a valid table whose next id follows them. */
  lemma ConsecutiveIdsValid(r: seq<Lessons.Lesson>, id: nat)
    requires |r| == 3 && r[0].id == id && r[1].id == id + 1 && r[2].id == id + 2
    ensures Lessons.LessonTable(r, id + 3).Valid()
  {
    assert forall i, j :: 0 <= i < j < |r| ==> Lessons.IdBefore(r[i], r[j]);
  }

  /** Lessons seed: only an empty table is seeded, with three rows under the next three
      ids, listed in that order by `getAllLessons`. A table with any row is untouched. */
  function SeedLessons(t: Lessons.LessonTable, now: int): (r: Lessons.LessonTable)
    ensures |t.rows| != 0 ==> r == t
    ensures |t.rows| == 0 ==>
      && r.rows == [SeedLesson(1, t.nextId, now), SeedLesson(2, t.nextId + 1, now), SeedLesson(3, t.nextId + 2, now)]
      && r.nextId == t.nextId + 3
      && Lessons.GetAllLessons(r) == r.rows
    ensures t.Valid() ==> r.Valid()
  {
    if |t.rows| != 0 then t
    else Lessons.LessonTable(SeedRows(t.nextId, now), t.nextId + 3)
  }

  /** Rows already in ascending `order_num`, of any number, come back from the sort unchanged. */
  lemma SeedOrder(s: seq<Lessons.Lesson>)
    requires forall i, j :: 0 <= i < j < |s| ==> s[i].orderNum <= s[j].orderNum
    ensures Lessons.GetAllLessons(Lessons.LessonTable(s, 0)) == s
    ensures forall n :: Lessons.GetAllLessons(Lessons.LessonTable(s, n)) == s
  {
    assert Sorting.SortedBy(s, Lessons.OrderNumOf);
    Sorting.SortSorted(s, Lessons.OrderNumOf);
  }

  /** `initializeDatabase`, table creation aside: overlay seed, then admin seed, then lessons
      seed. A failing overlay seed ends the run with the URL row inserted and nothing else
      seeded; progress rows are never touched. */
  function InitializeDatabase(db: Db, now: int): (r: SeedOutcome)
    requires db.Valid()
    ensures r.db.Valid()
    ensures r.failed <==> SiteConfig.OverlayImageUrlKey !in db.config && SiteConfig.OverlayDurationKey in db.config
    ensures r.db.progress == db.progress
    ensures r.failed ==> r.db == db.(config := db.config[SiteConfig.OverlayImageUrlKey := SiteConfig.ConfigEntry("", now)])
    ensures !r.failed ==>
      && SiteConfig.OverlayWellFormed(r.db.config)
      && AccessKeys.FindByKey(None, r.db.keys, AccessKeys.ProtectedKey, now).Some?
      && |r.db.lessons.rows| >= (if |db.lessons.rows| == 0 then 3 else |db.lessons.rows|)
  {
    var (config, failed) := SeedOverlay(db.config, now);
    if failed then SeedOutcome(db.(config := config), true)
    else SeedOutcome(Db(SeedAdmin(db.keys, now), SeedLessons(db.lessons, now), db.progress, config), false)
  }

  /** A run that completes leaves nothing for a second run to do. */
  lemma InitializeIdempotent(db: Db, t1: int, t2: int)
    requires db.Valid()
    requires !InitializeDatabase(db, t1).failed
    ensures InitializeDatabase(InitializeDatabase(db, t1).db, t2) == SeedOutcome(InitializeDatabase(db, t1).db, false)
  {
    var db1 := InitializeDatabase(db, t1).db;
    assert AccessKeys.FindByKey(None, db1.keys, AccessKeys.ProtectedKey, t2).Some? by {
      assert AccessKeys.FindByKey(None, db1.keys, AccessKeys.ProtectedKey, t1).Some?;
    }
  }

  /** A run that failed at the overlay seed left the URL row behind, so the next run gets
      past the overlay seed and completes. */
  lemma FailedSeedCompletesNextTime(db: Db, t1: int, t2: int)
    requires db.Valid()
    requires InitializeDatabase(db, t1).failed
    ensures !InitializeDatabase(InitializeDatabase(db, t1).db, t2).failed
  {
  }

  /** The admin seed never reactivates or promotes an existing `admin2020` row. */
  lemma ExistingAdminRowKept(db: Db, now: int)
    requires db.Valid()
    requires AccessKeys.FindByKey(None, db.keys, AccessKeys.ProtectedKey, now).Some?
    ensures InitializeDatabase(db, now).db.keys == db.keys
  {
  }

  /** On an empty database the seed yields the active `admin2020` administrator as row 1,
      the three lessons as rows 1 to 3, and the default overlay. */
  lemma SeedEmptyDatabase(now: int)
    ensures var r := InitializeDatabase(Db(AccessKeys.KeyTable([], 1), Lessons.LessonTable([], 1), UserProgress.ProgressTable([], 1), map[]), now);
      && !r.failed
      && AccessKeys.FindByKey(None, r.db.keys, AccessKeys.ProtectedKey, now)
           == Some(AccessKeys.AccessKey(1, AccessKeys.ProtectedKey, Some(SeedAdminOwner), true, true, now))
      && |r.db.lessons.rows| == 3
      && SiteConfig.GetOverlaySettings(r.db.config) == SiteConfig.OverlaySettings("", Some(1500))
  {
    var empty := Db(AccessKeys.KeyTable([], 1), Lessons.LessonTable([], 1), UserProgress.ProgressTable([], 1), map[]);
    assert empty.Valid();
    SeededOverlayDefaults(map[], now);
  }
}
