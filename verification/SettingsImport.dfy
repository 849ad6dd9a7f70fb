/**
 Which of several settings with one key an import restores (backend/app/api/backup.py, _clean_rows and
 _drop_duplicates): the ids are taken off first, so the rule "the newest stays" has nothing to go by.
 */
module SettingsImport {
  import opened Wrappers
  import opened Rows
  import opened Duplicates
  import opened BackupImport
  import opened RoundTrip

  /** The rows that are left of the settings section of a backup. */
  function RestoredFrom(schema: Schema, rows: Table): Table {
    KeepNewest(CleanRows(schema, "app_settings", rows), [["key"]])
  }

  /** A settings row as it is restored. */
  function Cleaned(schema: Schema, r: Row): Row
    requires "app_settings" in schema.tables
  {
    CleanRow(schema.tables["app_settings"].columns - {"id"}, r)
  }

  ghost predicate HasKey(schema: Schema) {
    "app_settings" in schema.tables && "key" in schema.tables["app_settings"].columns
  }

  /** No row before it has its key. */
  ghost predicate FirstOfKey(open: Table, f: nat)
    requires f < |open|
  {
    forall j :: 0 <= j < f ==> Get(open[j], "key") != Get(open[f], "key")
  }

  /** No row with its key has a higher id. */
  ghost predicate NewestOfKey(open: Table, n: nat)
    requires n < |open|
  {
    forall j :: 0 <= j < |open| && Get(open[j], "key") == Get(open[n], "key") ==> IdOf(open[j]) <= IdOf(open[n])
  }

  lemma CleanedKey(schema: Schema, r: Row)
    requires HasKey(schema) && Get(r, "key") != Null
    ensures Get(Cleaned(schema, r), "key") == Get(r, "key")
  {
  }

  lemma CleanedId(schema: Schema, r: Row)
    requires HasKey(schema)
    ensures IdOf(Cleaned(schema, r)) == 0
  {
  }

  lemma CleanedRows(schema: Schema, rows: Table)
    requires HasKey(schema)
    ensures |CleanRows(schema, "app_settings", rows)| == |OpenRows(rows)|
    ensures forall i :: 0 <= i < |OpenRows(rows)| ==> CleanRows(schema, "app_settings", rows)[i] == Cleaned(schema, OpenRows(rows)[i])
  {
    assert OpenRows(rows) == Filter(rows, r => !IsProtected(r));
  }

  lemma KeyCollision(a: Row, b: Row)
    ensures Collide(a, b, ["key"]) <==> Get(a, "key") != Null && Get(a, "key") == Get(b, "key")
  {
    assert KeyOf(a, ["key"]) == [Get(a, "key")] && KeyOf(b, ["key"]) == [Get(b, "key")];
    assert [Get(a, "key")][0] == Get(a, "key") && [Get(b, "key")][0] == Get(b, "key");
  }

  /** Keys the cleaning fills in are not looked at here: every open row has its key. */
  ghost predicate KeysFull(open: Table) {
    forall i :: 0 <= i < |open| ==> Get(open[i], "key") != Null
  }

  /** Of the rows with one key the import restores the one that stands first in the backup, and no other. */
  lemma FirstIsRestored(schema: Schema, rows: Table, f: nat)
    requires HasKey(schema) && KeysFull(OpenRows(rows)) && f < |OpenRows(rows)| && FirstOfKey(OpenRows(rows), f)
    ensures Cleaned(schema, OpenRows(rows)[f]) in RestoredFrom(schema, rows)
    ensures forall x :: x in RestoredFrom(schema, rows) && Get(x, "key") == Get(OpenRows(rows)[f], "key") ==>
              x == Cleaned(schema, OpenRows(rows)[f])
  {
    var open, cleaned := OpenRows(rows), CleanRows(schema, "app_settings", rows);
    CleanedRows(schema, rows);
    hide CleanRows, OpenRows, KeepNewest, Cleaned;
    forall i | 0 <= i < |open| ensures Get(cleaned[i], "key") == Get(open[i], "key") && IdOf(cleaned[i]) == 0 {
      CleanedKey(schema, open[i]);
      CleanedId(schema, open[i]);
    }
    forall x | x in cleaned ensures IdOf(x) == 0 {
      var i :| 0 <= i < |cleaned| && cleaned[i] == x;
    }
    FirstOfLevel(cleaned, f);
  }

  lemma FirstOfLevel(cleaned: Table, f: nat)
    requires (forall x :: x in cleaned ==> IdOf(x) == 0) && f < |cleaned| && FirstOfKey(cleaned, f)
    requires Get(cleaned[f], "key") != Null
    ensures cleaned[f] in KeepNewest(cleaned, [["key"]])
    ensures forall x :: x in KeepNewest(cleaned, [["key"]]) && Get(x, "key") == Get(cleaned[f], "key") ==> x == cleaned[f]
  {
    var r := cleaned[f];
    forall j | 0 <= j < f ensures !Collide(cleaned[j], r, ["key"]) {
      KeyCollision(cleaned[j], r);
    }
    WithoutIdsTheFirstStays(cleaned, ["key"], r);
    hide KeepNewest, Collide;
    forall x | x in KeepNewest(cleaned, [["key"]]) && Get(x, "key") == Get(r, "key") ensures x == r {
      WithoutIdsTheFirstStays(cleaned, ["key"], x);
      var p :| 0 <= p < |cleaned| && cleaned[p] == x && forall j :: 0 <= j < p ==> !Collide(cleaned[j], x, ["key"]);
      KeyCollision(r, x);
      assert f == p;
    }
  }

  /** So the newest row of a key is restored exactly when it stands first, or does not differ from the first but in its id. */
  lemma NewestIsRestored(schema: Schema, rows: Table, f: nat, n: nat)
    requires HasKey(schema) && KeysFull(OpenRows(rows))
    requires f < |OpenRows(rows)| && FirstOfKey(OpenRows(rows), f) && n < |OpenRows(rows)| && NewestOfKey(OpenRows(rows), n)
    requires Get(OpenRows(rows)[f], "key") == Get(OpenRows(rows)[n], "key")
    ensures Cleaned(schema, OpenRows(rows)[n]) in RestoredFrom(schema, rows)
            <==> f == n || Cleaned(schema, OpenRows(rows)[n]) == Cleaned(schema, OpenRows(rows)[f])
  {
    hide OpenRows, Cleaned, RestoredFrom, NewestOfKey, FirstOfKey;
    FirstIsRestored(schema, rows, f);
    var open := OpenRows(rows);
    assert Get(open[n], "key") != Null;
    CleanedKey(schema, open[n]);
  }

  /** A backup in the order of the ids, as an export writes it, brings back the lowest id of every key. */
  lemma OldestFromExport(rows: Table, f: nat, j: nat)
    requires StrictlyRising(rows) && f < |OpenRows(rows)| && FirstOfKey(OpenRows(rows), f) && j < |OpenRows(rows)|
    requires Get(OpenRows(rows)[j], "key") == Get(OpenRows(rows)[f], "key")
    ensures f <= j && IdOf(OpenRows(rows)[f]) <= IdOf(OpenRows(rows)[j])
  {
    var open := OpenRows(rows);
    assert open == Filter(rows, r => !IsProtected(r));
    assert f <= j;
    if f < j {
      var a, b := FilterPair(rows, r => !IsProtected(r), f, j);
    }
  }

  function Setting(id: int, key: string, value: string): Row {
    map["id" := Int(id), "key" := Text(key), "value" := Text(value)]
  }

  lemma SettingFields(id: int, key: string, value: string)
    ensures var r := Setting(id, key, value);
            IdOf(r) == id && Get(r, "id") == Int(id) && Get(r, "key") == Text(key) && Get(r, "value") == Text(value)
  {
  }

  /** Of ids 1 and 2 with one key the value of id 1 comes back. */
  lemma NewerValueIsLost(schema: Schema, key: string, older: string, newer: string)
    requires HasKey(schema) && "value" in schema.tables["app_settings"].columns
    requires older != newer && !IsProtected(Setting(1, key, older)) && !IsProtected(Setting(2, key, newer))
    ensures var restored := RestoredFrom(schema, [Setting(1, key, older), Setting(2, key, newer)]);
            && (exists r :: r in restored && Get(r, "value") == Text(older))
            && forall r :: r in restored && Get(r, "key") == Text(key) ==> Get(r, "value") != Text(newer)
  {
    var rows := [Setting(1, key, older), Setting(2, key, newer)];
    FilterAll(rows, r => !IsProtected(r));
    assert OpenRows(rows) == rows;
    SettingFields(1, key, older);
    SettingFields(2, key, newer);
    hide Setting, OpenRows, RestoredFrom;
    FirstIsRestored(schema, rows, 0);
    CleanedValue(schema, rows[0]);
  }

  lemma CleanedValue(schema: Schema, r: Row)
    requires HasKey(schema) && "value" in schema.tables["app_settings"].columns && Get(r, "value") != Null
    ensures Get(Cleaned(schema, r), "value") == Get(r, "value")
  {
  }
}
