/** The `access_keys` table (lib/models/access-keys.ts): shared-secret keys with an
    owner, an admin flag and an active flag. `key` is UNIQUE, `id` is AUTOINCREMENT. */
module AccessKeys {
  import opened Common
  import Table
  import Sorting

  /** The bootstrap administrator key that `deleteKey` refuses to delete. */
  const ProtectedKey: string := "admin2020"
  const EnvAdminOwner: string := "Administrador (Sistema)"
  const ProtectedKeyMessage: string := "Não é possível deletar a chave do administrador"
  const KeyAlphabet: string := "abcdefghijklmnopqrstuvwxyz0123456789"

  datatype AccessKey = AccessKey(
    id: nat,
    key: string,
    ownerName: Option<string>,
    isAdmin: bool,
    isActive: bool,
    createdAt: int)

  /** `is_admin` as JavaScript holds it once `findByKey` has answered: a stored row's
      INTEGER column reads back as the number 1 or 0, while the synthetic `ADMIN_KEY`
      record carries the boolean `true`. Both spellings have the truthiness `b`. */
  datatype AdminFlag = Bit(b: bool) | Boolean(b: bool)

  /** The spelling of the flag of `a`, the record `findByKey(k)` answered with. */
  function FoundAdminFlag(env: Option<string>, k: string, a: AccessKey): (f: AdminFlag)
    ensures f.b == a.isAdmin
    ensures f.Boolean? <==> Truthy(env) && k == env.value
  {
    if Truthy(env) && k == env.value then Boolean(a.isAdmin) else Bit(a.isAdmin)
  }

  /** The rows in rowid order and the next AUTOINCREMENT value. */
  datatype KeyTable = KeyTable(rows: seq<AccessKey>, nextId: nat) {
    /** UNIQUE(key), and ids strictly increasing in rowid order and below `nextId`. */
    ghost predicate Valid() {
      && Table.UniqueKeys(rows, KeyOf)
      && Table.Chained(rows, IdBefore)
      && forall i :: 0 <= i < |rows| ==> rows[i].id < nextId
    }
  }

  datatype KeyError = DuplicateKey | ProtectedKeyDeletion

  function KeyOf(a: AccessKey): string { a.key }
  function IdOf(a: AccessKey): nat { a.id }
  predicate IdBefore(a: AccessKey, b: AccessKey) { a.id < b.id }
  function CreatedAtOf(a: AccessKey): int { a.createdAt }

  /** The message of the error a key operation throws. */
  function KeyErrorMessage(e: KeyError): string {
    match e
    case DuplicateKey => "UNIQUE constraint failed: access_keys.key"
    case ProtectedKeyDeletion => ProtectedKeyMessage
  }

  /** `SELECT * FROM access_keys WHERE id = ?`. */
  function FindById(t: KeyTable, id: nat): (r: Option<AccessKey>)
    ensures r.Some? ==> r.value in t.rows && r.value.id == id
    ensures r.None? <==> forall i :: 0 <= i < |t.rows| ==> t.rows[i].id != id
  {
    Table.Find(t.rows, IdOf, id)
  }

  /** A valid table has at most one row per id. */
  lemma ValidIdsUnique(t: KeyTable)
    requires t.Valid()
    ensures Table.UniqueKeys(t.rows, IdOf)
  {
  }

  /** `findByKey`: a configured, non-empty `ADMIN_KEY` that equals the argument yields a
      synthetic active administrator (id 0) whatever the table holds; otherwise the row
      with exactly that key, if any. */
  function FindByKey(env: Option<string>, t: KeyTable, k: string, now: int): (r: Option<AccessKey>)
    ensures Truthy(env) && k == env.value ==>
      r == Some(AccessKey(0, k, Some(EnvAdminOwner), true, true, now))
    ensures !(Truthy(env) && k == env.value) ==>
      && (r.Some? ==> r.value in t.rows && r.value.key == k)
      && (r.None? <==> forall i :: 0 <= i < |t.rows| ==> t.rows[i].key != k)
  {
    if Truthy(env) && k == env.value then
      Some(AccessKey(0, env.value, Some(EnvAdminOwner), true, true, now))
    else
      Table.Find(t.rows, KeyOf, k)
  }

  /** `getAllKeys`: every row, newest `created_at` first. */
  function GetAllKeys(t: KeyTable): (r: seq<AccessKey>)
    ensures multiset(r) == multiset(t.rows)
    ensures forall i, j :: 0 <= i < j < |r| ==> r[i].createdAt >= r[j].createdAt
  {
    Sorting.SortDescBy(t.rows, CreatedAtOf)
  }

  /** `createKey`: inserts an active key under the next id; a falsy owner is stored as
      NULL. The UNIQUE constraint on `key` rejects a key that already exists. The
      returned record is the stored row. */
  function CreateKey(t: KeyTable, k: string, ownerName: Option<string>, isAdmin: bool, now: int)
    : (r: Result<(KeyTable, AccessKey), KeyError>)
    ensures r.Failure? <==> exists i :: 0 <= i < |t.rows| && t.rows[i].key == k
    ensures r.Failure? ==> r.error == DuplicateKey
    ensures r.Success? ==>
      var (t', a) := r.value;
      && a == AccessKey(t.nextId, k, OrNull(ownerName), isAdmin, true, now)
      && FindByKey(None, t', k, now) == Some(a)
      && (forall k' :: k' != k ==> FindByKey(None, t', k', now) == FindByKey(None, t, k', now))
      && (t.Valid() ==> t'.Valid() && FindById(t, a.id).None? && FindById(t', a.id) == Some(a))
  {
    if Table.Find(t.rows, KeyOf, k).Some? then Failure(DuplicateKey)
    else
      var a := AccessKey(t.nextId, k, OrNull(ownerName), isAdmin, true, now);
      var t' := KeyTable(t.rows + [a], t.nextId + 1);
      Table.FindAfterAppend(t.rows, KeyOf, a, k);
      forall k' | k' != k
        ensures Table.Find(t'.rows, KeyOf, k') == Table.Find(t.rows, KeyOf, k')
      {
        Table.FindAfterAppend(t.rows, KeyOf, a, k');
      }
      Table.FindAfterAppend(t.rows, IdOf, a, a.id);
      Success((t', a))
  }

  function Flip(a: AccessKey): (b: AccessKey)
    ensures b.id == a.id && b.key == a.key
  {
    a.(isActive := !a.isActive)
  }

  /** `toggleActive`: negates `is_active` of the row with that id and touches nothing
      else. There is no check for the protected key. */
  function ToggleActive(t: KeyTable, id: nat): (r: KeyTable)
    ensures FindById(r, id) == (match FindById(t, id) case Some(a) => Some(a.(isActive := !a.isActive)) case None => None)
    ensures forall id' :: id' != id ==> FindById(r, id') == FindById(t, id')
    ensures forall k, now :: FindByKey(None, r, k, now).Some? == FindByKey(None, t, k, now).Some?
    ensures |r.rows| == |t.rows| && r.nextId == t.nextId
    ensures t.Valid() ==> r.Valid()
  {
    var r := KeyTable(Table.Update(t.rows, IdOf, id, Flip), t.nextId);
    Table.FindAfterUpdate(t.rows, IdOf, id, Flip, id);
    forall id' | id' != id
      ensures FindById(r, id') == FindById(t, id')
    {
      Table.FindAfterUpdate(t.rows, IdOf, id, Flip, id');
    }
    FlipKeepsKeys(t, id);
    r
  }

  /** Flipping a row's active flag keeps every key and id where it was. */
  lemma FlipKeepsKeys(t: KeyTable, id: nat)
    ensures var r := KeyTable(Table.Update(t.rows, IdOf, id, Flip), t.nextId);
      && (forall k, now :: FindByKey(None, r, k, now).Some? == FindByKey(None, t, k, now).Some?)
      && (t.Valid() ==> r.Valid())
  {
    var r := Table.Update(t.rows, IdOf, id, Flip);
    assert forall i :: 0 <= i < |r| ==> r[i].key == t.rows[i].key && r[i].id == t.rows[i].id;
  }

  /** Under the constraints, looking the toggled key up by its text finds the toggled row. */
  lemma ToggledKeyFound(t: KeyTable, id: nat, now: int)
    requires t.Valid() && FindById(t, id).Some?
    ensures var a := FindById(t, id).value;
      FindByKey(None, ToggleActive(t, id), a.key, now) == Some(a.(isActive := !a.isActive))
  {
    var a := FindById(t, id).value;
    var r := ToggleActive(t, id);
    var i :| 0 <= i < |t.rows| && t.rows[i] == a;
    assert r.rows == Table.Update(t.rows, IdOf, id, Flip);
    assert r.rows[i] == Flip(a);
    Table.FindUnique(r.rows, KeyOf, i);
  }

  /** Toggling a key twice restores the table. */
  lemma ToggleActiveTwice(t: KeyTable, id: nat)
    ensures ToggleActive(ToggleActive(t, id), id) == t
  {
    var r := ToggleActive(ToggleActive(t, id), id);
    assert r.rows == t.rows;
  }

  /** `deleteKey`: refuses (and changes nothing) when the row with that id holds the
      protected key; otherwise removes exactly that id, and an unknown id is a no-op. */
  function DeleteKey(t: KeyTable, id: nat): (r: Result<KeyTable, KeyError>)
    ensures r.Failure? <==> FindById(t, id).Some? && FindById(t, id).value.key == ProtectedKey
    ensures r.Failure? ==> r.error == ProtectedKeyDeletion
    ensures r.Success? ==>
      && FindById(r.value, id).None?
      && (forall id' :: id' != id ==> FindById(r.value, id') == FindById(t, id'))
      && (FindById(t, id).None? ==> r.value == t)
      && (t.Valid() ==> r.value.Valid())
  {
    var target := Table.Find(t.rows, IdOf, id);
    if target.Some? && target.value.key == ProtectedKey then Failure(ProtectedKeyDeletion)
    else
      var r := KeyTable(Table.Delete(t.rows, IdOf, id), t.nextId);
      Table.FindAfterDelete(t.rows, IdOf, id, id);
      forall id' | id' != id
        ensures FindById(r, id') == FindById(t, id')
      {
        Table.FindAfterDelete(t.rows, IdOf, id, id');
      }
      assert t.Valid() ==> r.Valid() by {
        if t.Valid() {
          Table.DeleteKeepsChained(t.rows, IdOf, id, IdBefore);
          Table.DeleteKeepsUnique(t.rows, IdOf, id, KeyOf);
        }
      }
      Success(r)
  }

  /** No successful `deleteKey` removes the protected key's row. */
  lemma ProtectedKeySurvivesDelete(t: KeyTable, id: nat, now: int)
    requires t.Valid()
    requires DeleteKey(t, id).Success?
    ensures FindByKey(None, DeleteKey(t, id).value, ProtectedKey, now) == FindByKey(None, t, ProtectedKey, now)
  {
    var t' := DeleteKey(t, id).value;
    var before := FindByKey(None, t, ProtectedKey, now);
    if before.Some? {
      var x := before.value;
      assert x.id != id by {
        ValidIdsUnique(t);
        var i :| 0 <= i < |t.rows| && t.rows[i] == x;
        Table.FindUnique(t.rows, IdOf, i);
      }
      assert x in t'.rows;
      var j :| 0 <= j < |t'.rows| && t'.rows[j] == x;
      Table.FindUnique(t'.rows, KeyOf, j);
    } else {
      assert forall x :: x in t'.rows ==> x in t.rows;
    }
  }

  /** The protected key CAN be deactivated: `toggleActive` has no guard. */
  lemma ProtectedKeyCanBeDeactivated(now: int)
    ensures
      var t := KeyTable([AccessKey(1, ProtectedKey, Some("Administrador"), true, true, now)], 2);
      t.Valid() && !FindByKey(None, ToggleActive(t, 1), ProtectedKey, now).value.isActive
  {
    var t := KeyTable([AccessKey(1, ProtectedKey, Some("Administrador"), true, true, now)], 2);
    var r := ToggleActive(t, 1);
    assert r.rows[0].key == ProtectedKey && !r.rows[0].isActive;
  }

  /** `Math.random()` draws: every value lies in [0, 1). */
  ghost predicate ValidDraws(draws: seq<real>) {
    forall i :: 0 <= i < |draws| ==> 0.0 <= draws[i] < 1.0
  }

  /** `Math.floor(r * n)` for a draw `r`: an index below `n`. */
  function Pick(r: real, n: nat): (k: nat)
    requires 0.0 <= r < 1.0 && n > 0
    ensures k < n
  {
    assert (n as real) - r * (n as real) == (1.0 - r) * (n as real);
    assert (1.0 - r) * (n as real) > 0.0;
    (r * (n as real)).Floor
  }

  /** The key characters of `for (i = 0; i < n; i++) key += chars.charAt(…)`, one draw each. */
  function RandomChars(draws: seq<real>, n: nat): (s: string)
    requires n <= |draws| && ValidDraws(draws)
    ensures |s| == n
    ensures forall i :: 0 <= i < n ==> s[i] == KeyAlphabet[Pick(draws[i], 36)]
  {
    if n == 0 then "" else RandomChars(draws, n - 1) + [KeyAlphabet[Pick(draws[n - 1], 36)]]
  }

  /** `generateRandomKey`: the first draw picks a length in [10, 16], each later draw one
      character; every character is a lower-case ASCII letter or a decimal digit. */
  function GenerateRandomKey(draws: seq<real>): (key: string)
    requires |draws| >= 17 && ValidDraws(draws)
    ensures 10 <= |key| <= 16
    ensures |key| == 10 + Pick(draws[0], 7)
    ensures forall i :: 0 <= i < |key| ==> 'a' <= key[i] <= 'z' || '0' <= key[i] <= '9'
    ensures forall i :: 0 <= i < |key| ==> key[i] == KeyAlphabet[Pick(draws[i + 1], 36)]
  {
    var length := Pick(draws[0], 7) + 10;
    var key := RandomChars(draws[1..], length);
    AlphabetIsLowerAlphanumeric();
    key
  }

  lemma AlphabetIsLowerAlphanumeric()
    ensures forall i :: 0 <= i < |KeyAlphabet| ==> 'a' <= KeyAlphabet[i] <= 'z' || '0' <= KeyAlphabet[i] <= '9'
  {
  }
}
