/**
 Exporting an instance and importing the file, into itself or into another instance of the same version.
 */
module RoundTrip {
  import opened Wrappers
  import opened Rows
  import opened Duplicates
  import opened Cascade
  import opened DeviceIdentity
  import opened BackupImport
  import opened ImportSafety

  // ---------------------------------------------------------------- sound instances

  /** The row has the table's columns and meets its constraints. */
  ghost predicate GoodRow(info: TableInfo, r: Row) {
    && r.Keys == info.columns.Keys && Get(r, "id").Int? && info.check(r)
    && (forall c :: c in info.columns && info.columns[c].notNull ==> Get(r, c) != Null)
  }

  /** What the database guarantees of every table it stores: good rows in the order of distinct ids. */
  ghost predicate StoredTable(schema: Schema, name: string, t: Table) {
    name in schema.tables && (forall r :: r in t ==> GoodRow(schema.tables[name], r)) && StrictlyRising(t)
  }

  /** A table that is sound besides: unique on the keys of the database and of the models, with safe links. */
  ghost predicate GoodTable(schema: Schema, name: string, t: Table) {
    && StoredTable(schema, name, t)
    && Unique(t, schema.tables[name].unique) && Unique(t, KeysFor(schema, name))
    && (name == "services" ==> forall r :: r in t ==> schema.safeUrl(TextOf(r, "url_template")))
  }

  /** Ids are required; the settings are unique by key and nothing else constrains them. */
  ghost predicate GoodSchema(schema: Schema) {
    && SettingsSchema(schema) && ReferenceSchema(schema)
    && (forall name :: name in schema.tables ==>
          "id" in schema.tables[name].columns && schema.tables[name].columns["id"].notNull)
    && "app_settings" in schema.tables
    && schema.tables["app_settings"].unique == KeysFor(schema, "app_settings") == [["key"]]
    && (forall r :: schema.tables["app_settings"].check(r))
  }

  /** Any instance of this version, however damaged its contents. */
  ghost predicate StoredDb(schema: Schema, db: Database) {
    && NEEDED <= db.Keys && HasTables(db)
    && (forall key :: key in EXPORT_KEYS ==> TableName(key) in db && StoredTable(schema, TableName(key), db[TableName(key)]))
  }

  /** An instance whose references hold and whose tables are sound. */
  ghost predicate GoodDb(schema: Schema, db: Database) {
    && NEEDED <= db.Keys && HasTables(db) && Closed(db)
    && (forall key :: key in EXPORT_KEYS ==> TableName(key) in db && GoodTable(schema, TableName(key), db[TableName(key)]))
  }

  // ---------------------------------------------------------------- what an export holds

  lemma {:induction false} SectionsOf(db: Database, keys: seq<string>, s: Section)
    ensures s in ExportTables(db, keys) <==> s.key in keys && s in ExportTable(db, s.key)
  {
    if keys != [] {
      SectionsOf(db, keys[1..], s);
      assert keys == [keys[0]] + keys[1..];
      assert s in ExportTable(db, keys[0]) ==> s.key == keys[0];
    }
  }

  /**
   An export holds every table it knows as it is; tables that an older database lacks are left out, but for the five
   oldest, which are written empty.
   */
  lemma ExportHolds(db: Database, s: Section)
    ensures s in Export(db)
            <==> || s == Section("metadata", [])
                 || (&& s.key in EXPORT_KEYS
                     && (TableName(s.key) in db ==> s.rows == db[TableName(s.key)])
                     && (TableName(s.key) !in db ==>
                           s.rows == [] && s.key in {"device_groups", "devices", "services", "discovered_hosts", "settings"}))
  {
    SectionsOf(db, EXPORT_KEYS, s);
    OldestKeys(s.key);
    hide TableName, ExportTables;
    var part := ExportTable(db, s.key);
    assert s in part <==> part != [] && s == part[0];
  }

  lemma OldestKeys(key: string)
    ensures key in EXPORT_KEYS[..5] <==> key in {"device_groups", "devices", "services", "discovered_hosts", "settings"}
  {
    var keys := EXPORT_KEYS[..5];
    assert keys == ["device_groups", "devices", "services", "discovered_hosts", "settings"];
  }

  // ---------------------------------------------------------------- one table

  lemma CleanGoodRow(columns: map<string, Column>, r: Row)
    requires r.Keys == columns.Keys && forall c :: c in columns && columns[c].notNull ==> Get(r, c) != Null
    ensures CleanRow(columns, r) == r
  {
    forall c | c in columns ensures c in CleanRow(columns, r) && CleanRow(columns, r)[c] == r[c] {}
  }

  /** Good rows pass the cleaning unchanged. */
  lemma CleanGood(schema: Schema, name: string, t: Table)
    requires GoodTable(schema, name, t) && name != "app_settings"
    ensures CleanRows(schema, name, t) == t
  {
    forall i | 0 <= i < |t| ensures CleanRows(schema, name, t)[i] == t[i] {
      assert t[i] in t;
      CleanGoodRow(schema.tables[name].columns, t[i]);
    }
  }

  lemma {:induction false} InsertUpLast(r: Row, t: Table)
    requires forall i :: 0 <= i < |t| ==> IdOf(t[i]) < IdOf(r)
    ensures InsertUp(r, t) == t + [r]
  {
    if t != [] {
      InsertUpLast(r, t[1..]);
    }
  }

  lemma StoredAsIs(info: TableInfo, t: Table, r: Row)
    requires GoodRow(info, r)
    ensures StoredRow(info, info.columns.Keys, t, r) == r
  {
    forall c | c in info.columns ensures StoredRow(info, info.columns.Keys, t, r)[c] == r[c] {}
  }

  lemma AcceptsGood(info: TableInfo, t: Table, r: Row)
    requires GoodRow(info, r)
    requires forall x :: x in t ==> Get(x, "id") != Get(r, "id") && !Conflict(x, r, info.unique)
    ensures Accepts(info, t, r)
  {
    hide Conflict;
  }

  lemma InsertStep(info: TableInfo, named: set<string>, t: Table, rows: Table, stored: Row)
    requires rows != [] && StoredRow(info, named, t, rows[0]) == stored && Accepts(info, t, stored)
    ensures InsertRows(info, named, t, rows) == InsertRows(info, named, InsertUp(stored, t), rows[1..])
  {
  }

  /** The next of several good rows: what the table holds already neither conflicts with it nor comes after it. */
  lemma NextGood(info: TableInfo, t: Table, rows: Table)
    requires rows != [] && forall r :: r in t + rows ==> GoodRow(info, r)
    requires StrictlyRising(t + rows) && Unique(t + rows, info.unique)
    ensures GoodRow(info, rows[0]) && InsertUp(rows[0], t) == t + [rows[0]] && (t + [rows[0]]) + rows[1..] == t + rows
    ensures forall x :: x in t ==> Get(x, "id") != Get(rows[0], "id") && !Conflict(x, rows[0], info.unique)
  {
    hide Conflict, InsertUp;
    var r := rows[0];
    assert (t + rows)[|t|] == r && r in t + rows;
    forall i | 0 <= i < |t| ensures IdOf(t[i]) < IdOf(r) && Get(t[i], "id") != Get(r, "id") && !Conflict(t[i], r, info.unique) {
      assert (t + rows)[i] == t[i] && t[i] in t + rows;
    }
    InsertUpLast(r, t);
  }

  /** Good rows are inserted as they are, behind the rows that are there. */
  lemma {:induction false} InsertGood(info: TableInfo, t: Table, rows: Table)
    requires forall r :: r in t + rows ==> GoodRow(info, r)
    requires StrictlyRising(t + rows) && Unique(t + rows, info.unique)
    ensures InsertRows(info, info.columns.Keys, t, rows) == Some(t + rows)
    decreases |rows|
  {
    if rows == [] {
      assert t + rows == t;
    } else {
      hide InsertRows, InsertUp, StoredRow, Accepts, Conflict, GoodRow, StrictlyRising, Unique;
      var r := rows[0];
      NextGood(info, t, rows);
      StoredAsIs(info, t, r);
      AcceptsGood(info, t, r);
      InsertStep(info, info.columns.Keys, t, rows, r);
      InsertGood(info, t + [r], rows[1..]);
    }
  }

  /** The table is emptied and refilled with the very rows of the backup. */
  lemma ReplaceGood(schema: Schema, db: Database, name: string, t: Table)
    requires name in db && GoodTable(schema, name, t) && name != "app_settings"
    ensures ReplaceRows(schema, db, name, t) == Some(db[name := t])
  {
    var info := schema.tables[name];
    assert [] + t == t;
    if t == [] {
      assert InsertRows(info, {}, [], t) == Some([]);
    } else {
      assert t[0] in t;
      InsertGood(info, [], t);
    }
  }

  /** The export has something to say about this table. */
  predicate Brings(source: Database, key: string) {
    TableName(key) in source && (source[TableName(key)] != [] || key in REPLACE_WHEN_EMPTY)
  }

  lemma SectionGood(schema: Schema, p: Progress, source: Database, key: string)
    requires GoodSchema(schema) && GoodDb(schema, source)
    requires key in EXPORT_KEYS && key != "settings" && key in p.db
    ensures var s := Section(key, source[TableName(key)]);
            && ImportSection(schema, p, s).Some?
            && var next := ImportSection(schema, p, s).value;
               && (Brings(source, key) ==> next.db == p.db[key := source[key]] && next.imported.Keys == p.imported.Keys + {key})
               && (!Brings(source, key) ==> next == p)
  {
    hide EXPORT_KEYS, REPLACE_WHEN_EMPTY, GoodSchema;
    TableIsGood(schema, source, key);
    var t := source[key];
    CleanGood(schema, key, t);
    NothingToDrop(t, KeysFor(schema, key));
    ReplaceGood(schema, p.db, key, t);
    hide GoodDb, StoredDb, GoodTable, StoredTable, TableName, KeepNewest, CleanRows, ReplaceRows;
  }

  lemma TableIsGood(schema: Schema, source: Database, key: string)
    requires GoodDb(schema, source) && key in EXPORT_KEYS && key != "settings"
    ensures TableName(key) == key && key in source && GoodTable(schema, key, source[key])
    ensures key != "metadata" && key != "app_settings"
  {
    assert GoodTable(schema, TableName(key), source[TableName(key)]);
    NotMetadata();
  }

  lemma NotMetadata()
    ensures "metadata" !in EXPORT_KEYS && "app_settings" !in EXPORT_KEYS
  {
  }

  // ---------------------------------------------------------------- the settings

  /** Settings rows as they are restored: the ids go on from the last one that stayed. */
  function Renumber(rows: Table, first: int): (result: Table)
    ensures |result| == |rows|
  {
    seq(|rows|, i requires 0 <= i < |rows| => rows[i]["id" := Int(first + i)])
  }

  function OpenRows(settings: Table): Table {
    Filter(settings, r => !IsProtected(r))
  }

  function WithoutIds(t: Table): (result: Table)
    ensures |result| == |t|
  {
    seq(|t|, i requires 0 <= i < |t| => t[i] - {"id"})
  }

  ghost predicate SettingsInfo(info: TableInfo) {
    info.unique == [["key"]] && "id" in info.columns && "key" in info.columns && forall r :: info.check(r)
  }

  /** A settings row without its id, complete apart from that. */
  ghost predicate OpenRow(info: TableInfo, r: Row) {
    r.Keys == info.columns.Keys - {"id"} && forall c :: c in r && info.columns[c].notNull ==> Get(r, c) != Null
  }

  ghost predicate NoCollision(t: Table, rows: Table) {
    && (forall x, r :: x in t && r in rows ==> !Collide(x, r, ["key"]))
    && (forall i, j :: 0 <= i < j < |rows| ==> !Collide(rows[i], rows[j], ["key"]))
  }

  lemma StoredSetting(info: TableInfo, t: Table, r: Row)
    requires SettingsInfo(info) && OpenRow(info, r)
    ensures StoredRow(info, info.columns.Keys - {"id"}, t, r) == r["id" := Int(NextId(t))]
  {
    var stored := StoredRow(info, info.columns.Keys - {"id"}, t, r);
    forall c | c in info.columns ensures stored[c] == r["id" := Int(NextId(t))][c] {}
  }

  lemma AcceptsSetting(info: TableInfo, t: Table, r: Row)
    requires SettingsInfo(info) && OpenRow(info, r) && StrictlyRising(t)
    requires forall x :: x in t ==> Get(x, "id").Int? && !Collide(x, r, ["key"])
    ensures var stored := r["id" := Int(NextId(t))];
            Accepts(info, t, stored) && InsertUp(stored, t) == t + [stored]
  {
    var stored := r["id" := Int(NextId(t))];
    forall i | 0 <= i < |t| ensures IdOf(t[i]) < IdOf(stored) {
      assert t[i] in t && (i < |t| - 1 ==> IdOf(t[i]) < IdOf(t[|t| - 1]));
    }
    forall x | x in t ensures Get(x, "id") != Get(stored, "id") && !Conflict(x, stored, info.unique) {
      assert KeyOf(stored, ["key"]) == KeyOf(r, ["key"]);
      OneKey(x, stored, ["key"]);
    }
    InsertUpLast(stored, t);
  }

  lemma NoCollisionNext(t: Table, rows: Table, stored: Row, id: Value)
    requires rows != [] && NoCollision(t, rows) && stored == rows[0]["id" := id]
    ensures NoCollision(t + [stored], rows[1..])
  {
    assert KeyOf(stored, ["key"]) == KeyOf(rows[0], ["key"]);
    forall x, r | x in t + [stored] && r in rows[1..] ensures !Collide(x, r, ["key"]) {
      var j :| 0 <= j < |rows[1..]| && rows[1..][j] == r;
      assert rows[j + 1] == r && !Collide(rows[0], rows[j + 1], ["key"]);
    }
  }

  lemma {:induction false} InsertSettings(info: TableInfo, t: Table, rows: Table)
    requires SettingsInfo(info) && StrictlyRising(t) && NoCollision(t, rows)
    requires (forall x :: x in t ==> Get(x, "id").Int?) && forall r :: r in rows ==> OpenRow(info, r)
    ensures InsertRows(info, info.columns.Keys - {"id"}, t, rows) == Some(t + Renumber(rows, NextId(t)))
    decreases |rows|
  {
    if rows == [] {
      assert t + Renumber(rows, NextId(t)) == t;
    } else {
      var r := rows[0];
      var stored := r["id" := Int(NextId(t))];
      assert r in rows;
      StoredSetting(info, t, r);
      assert forall x :: x in t ==> !Collide(x, r, ["key"]);
      hide StoredRow, Accepts, InsertUp, SettingsInfo, OpenRow, NoCollision, StrictlyRising, Collide, NextId;
      hide InsertRows, Renumber;
      AcceptsSetting(info, t, r);
      InsertStep(info, info.columns.Keys - {"id"}, t, rows, stored);
      NoCollisionNext(t, rows, stored, Int(NextId(t)));
      RisesBehind(t, stored);
      forall x | x in t + [stored] ensures Get(x, "id").Int? {}
      InsertSettings(info, t + [stored], rows[1..]);
      RenumberNext(rows, NextId(t));
      Regroup(t, stored, Renumber(rows[1..], NextId(t) + 1));
      hide NoCollision, GoodRow;
    }
  }

  lemma Regroup(t: Table, r: Row, rest: Table)
    ensures (t + [r]) + rest == t + ([r] + rest)
  {
  }

  lemma RenumberNext(rows: Table, first: int)
    requires rows != []
    ensures Renumber(rows, first) == [rows[0]["id" := Int(first)]] + Renumber(rows[1..], first + 1)
  {
  }

  lemma RisesBehind(t: Table, stored: Row)
    requires StrictlyRising(t) && Get(stored, "id") == Int(NextId(t))
    ensures StrictlyRising(t + [stored]) && NextId(t + [stored]) == NextId(t) + 1
  {
    forall i | 0 <= i < |t| ensures IdOf(t[i]) < IdOf(stored) {
      assert i < |t| - 1 ==> IdOf(t[i]) < IdOf(t[|t| - 1]);
    }
  }

  /** What becomes of the settings: the protected rows stay, the open ones of the backup follow with new ids. */
  function RestoredSettings(target: Table, source: Table): Table {
    if OpenRows(source) == [] then target
    else ProtectedRows(target) + Renumber(WithoutIds(OpenRows(source)), NextId(ProtectedRows(target)))
  }

  lemma CleanSettings(schema: Schema, t: Table)
    requires GoodSchema(schema) && GoodTable(schema, "app_settings", t)
    ensures CleanRows(schema, "app_settings", t) == WithoutIds(OpenRows(t))
    ensures forall r :: r in WithoutIds(OpenRows(t)) ==> OpenRow(schema.tables["app_settings"], r)
  {
    var columns := schema.tables["app_settings"].columns;
    var open := OpenRows(t);
    assert CleanRows(schema, "app_settings", t)
           == seq(|open|, i requires 0 <= i < |open| => CleanRow(columns - {"id"}, open[i]));
    forall i | 0 <= i < |open| ensures CleanRow(columns - {"id"}, open[i]) == open[i] - {"id"} {
      assert open[i] in open && open[i] in t;
      forall c | c in columns - {"id"}
        ensures c in CleanRow(columns - {"id"}, open[i]) && CleanRow(columns - {"id"}, open[i])[c] == open[i][c] {}
    }
    forall r | r in WithoutIds(open) ensures OpenRow(schema.tables["app_settings"], r) {
      var i :| 0 <= i < |open| && WithoutIds(open)[i] == r;
      assert open[i] in open && GoodRow(schema.tables["app_settings"], open[i]);
      forall c | c in r && columns[c].notNull ensures Get(r, c) != Null {
        assert Get(r, c) == Get(open[i], c);
      }
    }
  }

  lemma OpenRowsDiffer(t: Table)
    requires Unique(t, [["key"]])
    ensures Unique(WithoutIds(OpenRows(t)), [["key"]])
    ensures forall r :: r in WithoutIds(OpenRows(t)) ==> IdOf(r) == 0 && !IsProtected(r)
  {
    var rows := WithoutIds(OpenRows(t));
    forall i, j | 0 <= i < j < |rows| ensures !Conflict(rows[i], rows[j], [["key"]]) {
      var a, b := FilterPair(t, r => !IsProtected(r), i, j);
      OneKey(t[a], t[b], ["key"]);
      OneKey(rows[i], rows[j], ["key"]);
      assert KeyOf(rows[i], ["key"]) == KeyOf(t[a], ["key"]) && KeyOf(rows[j], ["key"]) == KeyOf(t[b], ["key"]);
    }
    forall i | 0 <= i < |rows| ensures IdOf(rows[i]) == 0 && !IsProtected(rows[i]) {
      assert OpenRows(t)[i] in OpenRows(t);
    }
  }

  lemma OpenMeetsProtected(target: Table, rows: Table)
    requires Unique(rows, [["key"]]) && forall r :: r in rows ==> !IsProtected(r)
    requires forall x :: x in target ==> Get(x, "key") != Null
    ensures NoCollision(ProtectedRows(target), rows)
  {
    forall x, r | x in ProtectedRows(target) && r in rows ensures !Collide(x, r, ["key"]) {
      assert KeyOf(x, ["key"])[0] == Get(x, "key") && KeyOf(r, ["key"])[0] == Get(r, "key");
    }
    forall i, j | 0 <= i < j < |rows| ensures !Collide(rows[i], rows[j], ["key"]) {
      OneKey(rows[i], rows[j], ["key"]);
    }
  }

  lemma {:induction false} ProtectedRise(t: Table)
    requires StrictlyRising(t)
    ensures StrictlyRising(ProtectedRows(t))
  {
    forall i, j | 0 <= i < j < |ProtectedRows(t)| ensures IdOf(ProtectedRows(t)[i]) < IdOf(ProtectedRows(t)[j]) {
      var a, b := FilterPair(t, r => IsProtected(r), i, j);
    }
  }

  lemma ReplaceSettings(schema: Schema, db: Database, source: Table)
    requires GoodSchema(schema) && GoodTable(schema, "app_settings", source) && OpenRows(source) != []
    requires "app_settings" in db && StoredTable(schema, "app_settings", db["app_settings"])
    ensures ReplaceRows(schema, db, "app_settings", WithoutIds(OpenRows(source)))
            == Some(db["app_settings" := RestoredSettings(db["app_settings"], source)])
  {
    var info, target := schema.tables["app_settings"], db["app_settings"];
    var rows := WithoutIds(OpenRows(source));
    CleanSettings(schema, source);
    OpenRowsDiffer(source);
    assert rows[0] in rows && rows[0].Keys == info.columns.Keys - {"id"};
    forall x | x in target ensures Get(x, "key") != Null && Get(x, "id").Int? {
      assert GoodRow(info, x);
    }
    hide CleanRows, WithoutIds, OpenRows, IsProtected, GoodTable, StoredTable, InsertRows, Unique;
    OpenMeetsProtected(target, rows);
    ProtectedRise(target);
    FilterAgree(target, r => Get(r, "key") == Null || IsProtected(r), r => IsProtected(r));
    InsertSettings(info, ProtectedRows(target), rows);
  }

  /** A section that brings rows without duplicates replaces its table with them. */
  lemma SectionReplaces(schema: Schema, p: Progress, s: Section, rows: Table)
    requires SectionRows(schema, s) == Some(rows) && KeepNewest(rows, KeysFor(schema, TableName(s.key))) == rows
    requires ReplaceRows(schema, p.db, TableName(s.key), rows).Some?
    ensures ImportSection(schema, p, s).Some?
    ensures ImportSection(schema, p, s).value.db == ReplaceRows(schema, p.db, TableName(s.key), rows).value
    ensures ImportSection(schema, p, s).value.imported.Keys == p.imported.Keys + {TableName(s.key)}
  {
    hide SectionRows, KeepNewest, ReplaceRows, TableName;
  }

  lemma SectionSettings(schema: Schema, p: Progress, source: Table)
    requires GoodSchema(schema) && GoodTable(schema, "app_settings", source)
    requires "app_settings" in p.db && StoredTable(schema, "app_settings", p.db["app_settings"])
    ensures ImportSection(schema, p, Section("settings", source)).Some?
    ensures ImportSection(schema, p, Section("settings", source)).value.db
            == p.db["app_settings" := RestoredSettings(p.db["app_settings"], source)]
  {
    hide ReplaceRows, RestoredSettings, SectionRows, KeepNewest, OpenRows, GoodTable, StoredTable, GoodSchema;
    var rows, s := WithoutIds(OpenRows(source)), Section("settings", source);
    SettingsSection(schema, source);
    if OpenRows(source) != [] {
      ReplaceSettings(schema, p.db, source);
      SectionReplaces(schema, p, s, rows);
    } else {
      NoOpenRows(p.db["app_settings"], source);
      assert p.db["app_settings" := p.db["app_settings"]] == p.db;
    }
  }

  lemma NoOpenRows(target: Table, source: Table)
    requires OpenRows(source) == []
    ensures RestoredSettings(target, source) == target
  {
  }

  /** The rows the settings section brings, and that none of them is dropped. */
  lemma SettingsSection(schema: Schema, source: Table)
    requires GoodSchema(schema) && GoodTable(schema, "app_settings", source)
    ensures var rows := WithoutIds(OpenRows(source));
            && SectionRows(schema, Section("settings", source)) == (if rows == [] then None else Some(rows))
            && KeepNewest(rows, KeysFor(schema, "app_settings")) == rows
            && TableName("settings") == "app_settings"
  {
    var rows := WithoutIds(OpenRows(source));
    CleanSettings(schema, source);
    OpenRowsDiffer(source);
    hide CleanRows, WithoutIds, OpenRows, GoodRow, Unique, KeepNewest, StrictlyRising;
    NothingToDrop(rows, [["key"]]);
    SettingsKey();
    NoRowsNoOpenRows(source);
  }

  lemma SettingsKey()
    ensures "settings" in EXPORT_KEYS && "settings" !in REPLACE_WHEN_EMPTY && "settings" != "metadata"
  {
    assert EXPORT_KEYS[4] == "settings";
  }

  lemma NoRowsNoOpenRows(source: Table)
    ensures source == [] ==> WithoutIds(OpenRows(source)) == []
  {
  }

  // ---------------------------------------------------------------- all sections

  /** What the table of a backup key holds once all sections are in. */
  function RestoredTable(source: Database, target: Database, key: string): Table
    requires TableName(key) in source && TableName(key) in target
  {
    if key == "settings" then RestoredSettings(target["app_settings"], source["app_settings"])
    else if Brings(source, key) then source[key]
    else target[key]
  }

  lemma TableNames(key: string, other: string)
    requires key in EXPORT_KEYS && other in EXPORT_KEYS && key != other
    ensures TableName(key) != TableName(other)
  {
    assert "app_settings" !in EXPORT_KEYS;
  }

  /** Importing the section of one key sets its table and leaves the others. */
  lemma OneSection(schema: Schema, p: Progress, source: Database, target: Database, key: string)
    requires GoodSchema(schema) && GoodDb(schema, source) && StoredDb(schema, target) && key in EXPORT_KEYS
    requires TableName(key) in p.db && p.db[TableName(key)] == target[TableName(key)]
    ensures var s := Section(key, source[TableName(key)]);
            && ImportSection(schema, p, s).Some?
            && var next := ImportSection(schema, p, s).value;
               && next.db == p.db[TableName(key) := RestoredTable(source, target, key)]
               && p.imported.Keys <= next.imported.Keys
               && (key != "settings" && Brings(source, key) ==> key in next.imported)
  {
    assert GoodTable(schema, TableName(key), source[TableName(key)]);
    assert StoredTable(schema, TableName(key), target[TableName(key)]);
    SectionWritesOneTableIfAny(schema, p, Section(key, source[TableName(key)]));
    hide GoodTable, StoredTable, RestoredSettings, ImportSection, Closed;
    if key == "settings" {
      SectionSettings(schema, p, source["app_settings"]);
    } else {
      SectionGood(schema, p, source, key);
      if !Brings(source, key) {
        assert p.db[key := p.db[key]] == p.db;
      }
    }
  }

  lemma SectionWritesOneTableIfAny(schema: Schema, p: Progress, s: Section)
    ensures ImportSection(schema, p, s).Some? ==> p.imported.Keys <= ImportSection(schema, p, s).value.imported.Keys
  {
    if ImportSection(schema, p, s).Some? {
      SectionWritesOneTable(schema, p, s);
    }
  }

  /** Backup keys, each once. */
  ghost predicate Listed(keys: seq<string>) {
    && (forall i :: 0 <= i < |keys| ==> keys[i] in EXPORT_KEYS)
    && (forall i, j :: 0 <= i < j < |keys| ==> keys[i] != keys[j])
  }

  /** The tables of these keys have not been written yet. */
  ghost predicate Ready(db: Database, target: Database, keys: seq<string>) {
    forall key :: key in keys ==>
      TableName(key) in db && TableName(key) in target && db[TableName(key)] == target[TableName(key)]
  }

  /** From `p` to `after` exactly the tables of these keys have been restored. */
  ghost predicate Restores(p: Progress, after: Progress, source: Database, target: Database, keys: seq<string>) {
    && after.db.Keys == p.db.Keys && p.imported.Keys <= after.imported.Keys
    && (forall key :: key in keys ==>
          && TableName(key) in source && TableName(key) in target && TableName(key) in p.db
          && after.db[TableName(key)] == RestoredTable(source, target, key)
          && (key != "settings" && Brings(source, key) ==> key in after.imported))
    && (forall name :: name in p.db && (forall key :: key in keys ==> TableName(key) != name) ==>
          after.db[name] == p.db[name])
  }

  lemma RestReady(p: Progress, next: Progress, target: Database, keys: seq<string>, t: Table)
    requires keys != [] && Listed(keys) && Ready(p.db, target, keys) && next.db == p.db[TableName(keys[0]) := t]
    ensures Listed(keys[1..]) && Ready(next.db, target, keys[1..])
    ensures forall key :: key in keys[1..] ==> TableName(key) != TableName(keys[0])
  {
    forall key | key in keys[1..] ensures TableName(key) != TableName(keys[0]) && key in keys {
      var i :| 0 <= i < |keys[1..]| && keys[1..][i] == key;
      assert keys[i + 1] == key;
      TableNames(keys[0], key);
    }
  }

  lemma RestoresStep(p: Progress, next: Progress, after: Progress, source: Database, target: Database, keys: seq<string>)
    requires keys != [] && TableName(keys[0]) in source && TableName(keys[0]) in target && TableName(keys[0]) in p.db
    requires next.db == p.db[TableName(keys[0]) := RestoredTable(source, target, keys[0])]
    requires p.imported.Keys <= next.imported.Keys
    requires keys[0] != "settings" && Brings(source, keys[0]) ==> keys[0] in next.imported
    requires forall key :: key in keys[1..] ==> TableName(key) != TableName(keys[0])
    requires Restores(next, after, source, target, keys[1..])
    ensures Restores(p, after, source, target, keys)
  {
    hide RestoredTable, Brings, TableName;
    forall key | key in keys ensures key == keys[0] || key in keys[1..] {}
    forall key | key in keys[1..] ensures key in keys {}
    assert keys[0] in keys;
  }

  lemma {:induction false} ImportTables(schema: Schema, p: Progress, source: Database, target: Database, keys: seq<string>)
    requires GoodSchema(schema) && GoodDb(schema, source) && StoredDb(schema, target)
    requires Listed(keys) && Ready(p.db, target, keys)
    ensures ImportSections(schema, p, ExportTables(source, keys)).Some?
    ensures Restores(p, ImportSections(schema, p, ExportTables(source, keys)).value, source, target, keys)
    decreases |keys|
  {
    if keys != [] {
      hide GoodDb, StoredDb, GoodSchema, Brings, RestoredTable, ImportSection, Restores;
      var key, rest := keys[0], keys[1..];
      assert key in keys && key in EXPORT_KEYS;
      GoodHas(schema, source, key);
      OneSection(schema, p, source, target, key);
      var next := ImportSection(schema, p, Section(key, source[TableName(key)])).value;
      RestReady(p, next, target, keys, RestoredTable(source, target, key));
      hide Listed, Ready, TableName;
      ImportTables(schema, next, source, target, rest);
      var after := ImportSections(schema, next, ExportTables(source, rest)).value;
      RestoresStep(p, next, after, source, target, keys);
      ExportStep(source, keys);
      SectionsStep(schema, p, Section(key, source[TableName(key)]), ExportTables(source, rest));
    }
  }

  lemma SectionsStep(schema: Schema, p: Progress, s: Section, rest: Backup)
    requires ImportSection(schema, p, s).Some?
    ensures ImportSections(schema, p, [s] + rest) == ImportSections(schema, ImportSection(schema, p, s).value, rest)
  {
    assert ([s] + rest)[1..] == rest;
  }

  lemma GoodHas(schema: Schema, db: Database, key: string)
    requires GoodDb(schema, db) && key in EXPORT_KEYS
    ensures TableName(key) in db
  {
  }

  lemma StoredHas(schema: Schema, db: Database, key: string)
    requires StoredDb(schema, db) && key in EXPORT_KEYS
    ensures TableName(key) in db
  {
  }

  lemma GoodIsStored(schema: Schema, db: Database)
    requires GoodDb(schema, db)
    ensures StoredDb(schema, db)
  {
    hide StoredTable, Closed;
  }

  lemma ExportStep(source: Database, keys: seq<string>)
    requires keys != [] && TableName(keys[0]) in source
    ensures ExportTables(source, keys)
            == [Section(keys[0], source[TableName(keys[0])])] + ExportTables(source, keys[1..])
  {
  }

  // ---------------------------------------------------------------- detaching and cleaning up find nothing to do

  lemma StoredFilled(schema: Schema, name: string, t: Table, column: string)
    requires StoredTable(schema, name, t) && Required(schema, name, column)
    ensures Filled(t, column)
  {
    forall r | r in t ensures Get(r, column) != Null {
      assert GoodRow(schema.tables[name], r);
    }
  }

  lemma StoredKeyed(schema: Schema, db: Database)
    requires GoodSchema(schema) && HasTables(db)
    requires StoredTable(schema, "racks", db["racks"]) && StoredTable(schema, "devices", db["devices"])
    requires StoredTable(schema, "rack_items", db["rack_items"]) && StoredTable(schema, "rack_ports", db["rack_ports"])
    requires StoredTable(schema, "rack_cables", db["rack_cables"])
    requires StoredTable(schema, "topology_links", db["topology_links"])
    ensures Keyed(db)
  {
    hide StoredTable, Required, Filled;
    StoredFilled(schema, "racks", db["racks"], "id");
    StoredFilled(schema, "devices", db["devices"], "id");
    StoredFilled(schema, "rack_items", db["rack_items"], "id");
    StoredFilled(schema, "rack_items", db["rack_items"], "rack_id");
    StoredFilled(schema, "rack_ports", db["rack_ports"], "id");
    StoredFilled(schema, "rack_cables", db["rack_cables"], "a_port_id");
    StoredFilled(schema, "rack_cables", db["rack_cables"], "b_port_id");
    StoredFilled(schema, "topology_links", db["topology_links"], "source_id");
    StoredFilled(schema, "topology_links", db["topology_links"], "target_id");
  }

  /** A clean-up deletes nothing from tables whose references hold. */
  lemma CleanupKeeps(db: Database)
    requires HasTables(db) && Keyed(db)
    requires ItemsClosed(db["rack_items"], db["racks"])
    requires PortsClosed(db["rack_ports"], db["devices"], db["rack_items"])
    requires CablesClosed(db["rack_cables"], db["rack_ports"])
    ensures var c := Cleanup(db);
            && c.Keys == db.Keys && (forall name :: name in db && name != "topology_links" ==> c[name] == db[name])
            && (LinksClosed(db["topology_links"], db["devices"]) ==> c["topology_links"] == db["topology_links"])
  {
    hide Refers, Cleanup, KeepItems, KeepPorts, KeepCables, KeepLinks, Filter, Filled;
    CleanupTables(db);
    ItemsStay(db["rack_items"], db["racks"]);
    PortsStay(db["rack_ports"], db["devices"], db["rack_items"]);
    CablesStay(db["rack_cables"], db["rack_ports"]);
    if LinksClosed(db["topology_links"], db["devices"]) {
      LinksStay(db["topology_links"], db["devices"]);
    }
  }

  lemma ItemsStay(items: Table, racks: Table)
    requires Filled(racks, "id") && Filled(items, "rack_id") && ItemsClosed(items, racks)
    ensures KeepItems(items, racks) == items
  {
    hide Refers;
    KeepIsFkItems(items, racks);
    FilterAll(items, r => Refers(Get(r, "rack_id"), racks));
  }

  lemma PortsStay(ports: Table, devices: Table, items: Table)
    requires Filled(devices, "id") && Filled(items, "id") && PortsClosed(ports, devices, items)
    ensures KeepPorts(ports, devices, items) == ports
  {
    hide Refers;
    KeepIsFkPorts(ports, devices, items);
    FilterAll(ports, r => Refers(Get(r, "device_id"), devices) && Refers(Get(r, "rack_item_id"), items));
  }

  lemma CablesStay(cables: Table, ports: Table)
    requires Filled(ports, "id") && Filled(cables, "a_port_id") && Filled(cables, "b_port_id") && CablesClosed(cables, ports)
    ensures KeepCables(cables, ports) == cables
  {
    hide Refers;
    KeepIsFkCables(cables, ports);
    FilterAll(cables, r => Refers(Get(r, "a_port_id"), ports) && Refers(Get(r, "b_port_id"), ports));
  }

  lemma LinksStay(links: Table, devices: Table)
    requires Filled(devices, "id") && Filled(links, "source_id") && Filled(links, "target_id") && LinksClosed(links, devices)
    ensures KeepLinks(links, devices) == links
  {
    hide Refers;
    KeepIsFkLinks(links, devices);
    FilterAll(links, r => Refers(Get(r, "source_id"), devices) && Refers(Get(r, "target_id"), devices));
  }

  lemma ReferencesInto(rows: Table, column: string, small: Table, large: Table)
    requires small == [] || small == large
    requires forall r :: r in rows ==> Refers(Get(r, column), small)
    ensures forall r :: r in rows ==> Refers(Get(r, column), large)
  {
  }

  /** The tables the backup brought, among those of the clean-up; racks and devices only if there were any. */
  ghost predicate Brought(db: Database, source: Database)
    requires HasTables(db) && HasTables(source)
  {
    && (source["racks"] == [] || db["racks"] == source["racks"])
    && (source["devices"] == [] || db["devices"] == source["devices"])
    && db["rack_items"] == source["rack_items"] && db["rack_ports"] == source["rack_ports"]
    && db["rack_cables"] == source["rack_cables"]
    && (source["topology_links"] == [] || db["topology_links"] == source["topology_links"])
  }

  lemma CleanupBrought(db: Database, source: Database)
    requires HasTables(db) && HasTables(source) && Keyed(db) && Closed(source) && Brought(db, source)
    ensures var c := Cleanup(db);
            && c.Keys == db.Keys && (forall name :: name in db && name != "topology_links" ==> c[name] == db[name])
            && (source["topology_links"] != [] ==> c["topology_links"] == source["topology_links"])
  {
    ReferencesInto(db["rack_items"], "rack_id", source["racks"], db["racks"]);
    ReferencesInto(db["rack_ports"], "device_id", source["devices"], db["devices"]);
    if source["topology_links"] != [] {
      ReferencesInto(db["topology_links"], "source_id", source["devices"], db["devices"]);
      ReferencesInto(db["topology_links"], "target_id", source["devices"], db["devices"]);
    }
    hide Keyed, Refers, Cleanup;
    CleanupKeeps(db);
  }

  lemma DetachLeavesRestored(db: Database, before: map<Value, Identity>, restored: set<string>, name: string)
    requires name in db && name in restored && name != "ssh_profiles" && name != "ssh_history"
    ensures Detach(db, before, restored).Keys == db.Keys && Detach(db, before, restored)[name] == db[name]
  {
  }

  // ---------------------------------------------------------------- the round trips

  lemma ExportKeysListed()
    ensures Listed(EXPORT_KEYS) && "metadata" !in EXPORT_KEYS
    ensures EXPORT_KEYS[4] == "settings" && TableName("settings") == "app_settings" && "app_settings" !in EXPORT_KEYS
  {
  }

  /** The sections of an export go in without an error and restore every table. */
  lemma SectionsRestore(schema: Schema, source: Database, target: Database)
    requires GoodSchema(schema) && GoodDb(schema, source) && StoredDb(schema, target)
    ensures var start := Progress(target, map[], map[]);
            && ImportSections(schema, start, Export(source)).Some?
            && Restores(start, ImportSections(schema, start, Export(source)).value, source, target, EXPORT_KEYS)
  {
    var start := Progress(target, map[], map[]);
    ExportKeysListed();
    forall key | key in EXPORT_KEYS ensures TableName(key) in target {
      StoredHas(schema, target, key);
    }
    hide GoodDb, StoredDb, GoodSchema, Restores, Listed, TableName;
    ImportTables(schema, start, source, target, EXPORT_KEYS);
    MetadataSkipped(schema, start);
    SectionsStep(schema, start, Section("metadata", []), ExportTables(source, EXPORT_KEYS));
  }

  lemma MetadataSkipped(schema: Schema, p: Progress)
    ensures ImportSection(schema, p, Section("metadata", [])) == Some(p)
  {
  }

  /** A table other than the settings holds the source's rows, or the target's where the source had none. */
  lemma RestoredAt(schema: Schema, p: Progress, source: Database, target: Database, name: string)
    requires GoodDb(schema, source) && StoredDb(schema, target)
    requires Restores(Progress(target, map[], map[]), p, source, target, EXPORT_KEYS)
    requires name in EXPORT_KEYS && name != "settings"
    ensures TableName(name) == name && name in p.db && name in source && name in target && StoredTable(schema, name, p.db[name])
    ensures p.db[name] == if Brings(source, name) then source[name] else target[name]
    ensures Brings(source, name) ==> name in p.imported
    ensures source[name] == [] || p.db[name] == source[name]
    ensures name in REPLACE_WHEN_EMPTY ==> p.db[name] == source[name] && name in p.imported
  {
    assert GoodTable(schema, TableName(name), source[TableName(name)]);
    assert StoredTable(schema, TableName(name), target[TableName(name)]);
    hide GoodTable, StoredTable, Closed;
  }

  lemma RestoredReferences(schema: Schema, p: Progress, source: Database, target: Database)
    requires GoodSchema(schema) && GoodDb(schema, source) && StoredDb(schema, target)
    requires Restores(Progress(target, map[], map[]), p, source, target, EXPORT_KEYS)
    ensures HasTables(source) && HasTables(p.db) && Brought(p.db, source) && Keyed(p.db) && "rack_ports" in p.imported
  {
    BothHaveTables(schema, p, source, target);
    ReferenceKeys();
    hide GoodTable, StoredTable, GoodSchema, GoodDb, StoredDb, Restores, Brings, TableName, HasTables, Brought, Keyed;
    RestoredAt(schema, p, source, target, "racks");
    RestoredAt(schema, p, source, target, "devices");
    RestoredAt(schema, p, source, target, "rack_items");
    RestoredAt(schema, p, source, target, "rack_ports");
    RestoredAt(schema, p, source, target, "rack_cables");
    RestoredAt(schema, p, source, target, "topology_links");
    StoredKeyed(schema, p.db);
    BroughtFrom(p.db, source);
  }

  lemma BothHaveTables(schema: Schema, p: Progress, source: Database, target: Database)
    requires GoodDb(schema, source) && StoredDb(schema, target)
    requires Restores(Progress(target, map[], map[]), p, source, target, EXPORT_KEYS)
    ensures HasTables(source) && HasTables(p.db)
  {
    hide GoodTable, StoredTable, RestoredTable, TableName, Brings, Closed;
  }

  lemma ReferenceKeys()
    ensures "racks" in EXPORT_KEYS && "devices" in EXPORT_KEYS && "rack_items" in EXPORT_KEYS
    ensures "rack_ports" in EXPORT_KEYS && "rack_cables" in EXPORT_KEYS && "topology_links" in EXPORT_KEYS
    ensures {"rack_items", "rack_ports", "rack_cables"} == REPLACE_WHEN_EMPTY
    ensures "settings" !in {"racks", "devices", "rack_items", "rack_ports", "rack_cables", "topology_links"}
  {
    var k := EXPORT_KEYS;
    assert k[1] == "devices" && k[8] == "topology_links" && k[9] == "racks";
    assert k[10] == "rack_items" && k[11] == "rack_ports" && k[12] == "rack_cables";
  }

  lemma BroughtFrom(db: Database, source: Database)
    requires HasTables(db) && HasTables(source)
    requires source["racks"] == [] || db["racks"] == source["racks"]
    requires source["devices"] == [] || db["devices"] == source["devices"]
    requires db["rack_items"] == source["rack_items"] && db["rack_ports"] == source["rack_ports"]
    requires db["rack_cables"] == source["rack_cables"]
    requires source["topology_links"] == [] || db["topology_links"] == source["topology_links"]
    ensures Brought(db, source)
  {
  }

  /** The state after the sections, and that detaching and cleaning up go through with nothing to do on what was brought. */
  lemma ImportedDb(schema: Schema, source: Database, target: Database) returns (p: Progress)
    requires GoodSchema(schema) && GoodDb(schema, source) && StoredDb(schema, target)
    ensures Restores(Progress(target, map[], map[]), p, source, target, EXPORT_KEYS)
    ensures "devices" in target && "app_settings" in target && p.db.Keys == target.Keys
    ensures var d := Detach(p.db, Identities(target["devices"]), p.imported.Keys);
            && Import(schema, target, Export(source)) == Some(p.(db := Cleanup(d)))
            && d.Keys == p.db.Keys && HasTables(d) && HasTables(source) && Brought(d, source) && Keyed(d)
  {
    var start := Progress(target, map[], map[]);
    assert NEEDED <= target.Keys && TableOf(target, "app_settings") == target["app_settings"];
    hide GoodSchema, GoodDb, StoredDb, Brought, Keyed, Detach, Cleanup, Import, ImportSections, Export, Identities, HasTables;
    SectionsRestore(schema, source, target);
    p := ImportSections(schema, start, Export(source)).value;
    assert SettingsSchema(schema) by { GoodSettings(schema); }
    ProtectedUnchanged(schema, start, Export(source));
    RestoredReferences(schema, p, source, target);
    ImportSucceeds(schema, target, Export(source), p);
    DetachedReferences(p.db, Identities(target["devices"]), p.imported.Keys, source);
  }

  lemma GoodSettings(schema: Schema)
    requires GoodSchema(schema)
    ensures SettingsSchema(schema)
  {
  }

  lemma GoodCloses(schema: Schema, db: Database)
    requires GoodDb(schema, db)
    ensures HasTables(db) && Closed(db)
  {
  }

  /** What the export brings for one key arrives. */
  lemma OneTableArrives(schema: Schema, p: Progress, source: Database, target: Database, restored: Database, key: string)
    requires GoodDb(schema, source) && StoredDb(schema, target) && "devices" in target
    requires Restores(Progress(target, map[], map[]), p, source, target, EXPORT_KEYS)
    requires restored == Detach(p.db, Identities(target["devices"]), p.imported.Keys)
    requires restored.Keys == p.db.Keys && HasTables(restored) && HasTables(source) && Brought(restored, source)
    requires Keyed(restored) && key in EXPORT_KEYS && key != "settings" && Brings(source, key)
    ensures TableName(key) == key && key in Cleanup(restored) && key in source && Cleanup(restored)[key] == source[key]
  {
    hide Keyed, Detach, Cleanup, Closed, Restores, GoodDb, StoredDb, HasTables, Brought, Brings;
    GoodCloses(schema, source);
    CleanupBrought(restored, source);
    RestoredAt(schema, p, source, target, key);
    NoConnectionKeys(key);
    DetachLeavesRestored(p.db, Identities(target["devices"]), p.imported.Keys, key);
    if key == "topology_links" {
      BringsLinks(source, key);
    }
  }

  lemma BringsLinks(source: Database, key: string)
    requires Brings(source, key) && key == "topology_links"
    ensures key in source && source[key] != []
  {
  }

  /**
   Importing an export of any sound instance into any instance of the same version succeeds, also into one with
   duplicates, broken references or unsafe links. Every table the export brings then holds exactly the exported rows; the settings are the target's protected
   rows followed by the source's open ones.
   */
  lemma ExportImports(schema: Schema, source: Database, target: Database)
    requires GoodSchema(schema) && GoodDb(schema, source) && StoredDb(schema, target)
    ensures Import(schema, target, Export(source)).Some?
    ensures var after := Import(schema, target, Export(source)).value.db;
            && after.Keys == target.Keys && "app_settings" in target && "app_settings" in source
            && (forall key :: key in EXPORT_KEYS && key != "settings" && Brings(source, key) ==>
                  key in after && key in source && after[key] == source[key])
            && after["app_settings"] == RestoredSettings(target["app_settings"], source["app_settings"])
  {
    var p := ImportedDb(schema, source, target);
    var was := Identities(target["devices"]);
    var d := Detach(p.db, was, p.imported.Keys);
    SettingsArrive(p, source, target);
    GoodCloses(schema, source);
    hide GoodSchema, GoodDb, StoredDb, Restores, Brought, Detach, Cleanup, Closed, Keyed, RestoredSettings, Import, Identities, Export;
    hide Brings, TableName;
    forall key | key in EXPORT_KEYS && key != "settings" && Brings(source, key)
      ensures key in Cleanup(d) && key in source && Cleanup(d)[key] == source[key]
    {
      OneTableArrives(schema, p, source, target, d, key);
    }
    CleanupBrought(d, source);
    DetachLeaves(p.db, was, p.imported.Keys, "app_settings");
  }

  lemma SettingsArrive(p: Progress, source: Database, target: Database)
    requires Restores(Progress(target, map[], map[]), p, source, target, EXPORT_KEYS)
    ensures "app_settings" in p.db && "app_settings" in source && "app_settings" in target
    ensures p.db["app_settings"] == RestoredSettings(target["app_settings"], source["app_settings"])
  {
    ExportKeysListed();
    assert EXPORT_KEYS[4] in EXPORT_KEYS;
    hide RestoredSettings;
  }

  lemma NoConnectionKeys(key: string)
    requires key in EXPORT_KEYS
    ensures key != "ssh_profiles" && key != "ssh_history"
  {
  }

  lemma ImportSucceeds(schema: Schema, db: Database, data: Backup, p: Progress)
    requires NEEDED <= db.Keys && ImportSections(schema, Progress(db, map[], map[]), data) == Some(p)
    requires ProtectedSettings(TableOf(p.db, "app_settings")) == ProtectedSettings(db["app_settings"])
    ensures Import(schema, db, data)
            == Some(p.(db := Cleanup(Detach(p.db, Identities(db["devices"]), p.imported.Keys))))
  {
  }

  /** The detaching leaves the tables of the clean-up alone: racks and links always, ports since they were restored. */
  lemma DetachedReferences(db: Database, before: map<Value, Identity>, restored: set<string>, source: Database)
    requires HasTables(db) && HasTables(source) && Brought(db, source) && Keyed(db) && "rack_ports" in restored
    ensures var d := Detach(db, before, restored);
            d.Keys == db.Keys && HasTables(d) && Brought(d, source) && Keyed(d)
  {
    DetachKeepsKeyed(db, before, restored);
    DetachLeaves(db, before, restored, "racks");
    DetachLeaves(db, before, restored, "devices");
    DetachLeaves(db, before, restored, "rack_items");
    DetachLeaves(db, before, restored, "rack_ports");
    DetachLeaves(db, before, restored, "rack_cables");
    DetachLeaves(db, before, restored, "topology_links");
  }

  // ---------------------------------------------------------------- into the same instance

  lemma SameDeviceSelf(devices: Table)
    ensures Reassigned(Identities(devices), Identities(devices)) == {}
  {
  }

  lemma NothingDetached(db: Database, before: map<Value, Identity>, restored: set<string>)
    requires "devices" in db && before == Identities(db["devices"])
    ensures Detach(db, before, restored) == db
  {
    SameDeviceSelf(db["devices"]);
    forall name | name in db ensures Detached(name, db[name], {}, before, restored) == db[name] {
      FilterAll(db[name], r => !BoundTo(r, {}));
    }
  }

  /** Importing its own export changes nothing in an instance but the ids and the order of its settings. */
  lemma OwnExportChangesNothing(schema: Schema, db: Database)
    requires GoodSchema(schema) && GoodDb(schema, db)
    ensures Import(schema, db, Export(db)).Some? && "app_settings" in db
    ensures Import(schema, db, Export(db)).value.db
            == db["app_settings" := RestoredSettings(db["app_settings"], db["app_settings"])]
  {
    hide GoodSchema, GoodDb, StoredDb, Restores, Detach, Cleanup, Keyed, RestoredSettings, Import, Identities, Export, Closed, Brought;
    hide HasTables;
    GoodCloses(schema, db);
    GoodIsStored(schema, db);
    var p := ImportedDb(schema, db, db);
    OwnSections(db, p);
    OwnDetached(db, p);
    OwnReferences(db, p.db);
    OwnCleaned(p.db);
  }

  lemma OwnDetached(db: Database, p: Progress)
    requires "devices" in db && "app_settings" in db
    requires p.db.Keys == db.Keys && p.db["devices"] == db["devices"]
    ensures Detach(p.db, Identities(db["devices"]), p.imported.Keys) == p.db
  {
    NothingDetached(p.db, Identities(db["devices"]), p.imported.Keys);
  }

  lemma OwnCleaned(db: Database)
    requires HasTables(db) && Closed(db) && Keyed(db)
    ensures Cleanup(db) == db
  {
    hide Keyed, Cleanup, Refers;
    CleanupKeeps(db);
  }

  lemma OwnReferences(db: Database, after: Database)
    requires HasTables(db) && Closed(db) && after.Keys == db.Keys
    requires forall name :: name in db && name != "app_settings" ==> after[name] == db[name]
    ensures HasTables(after) && Closed(after)
  {
    hide Refers;
  }

  lemma OwnSections(db: Database, p: Progress)
    requires "app_settings" in db && Restores(Progress(db, map[], map[]), p, db, db, EXPORT_KEYS)
    ensures p.db == db["app_settings" := RestoredSettings(db["app_settings"], db["app_settings"])]
    ensures "devices" in db ==> p.db["devices"] == db["devices"]
  {
    ExportKeysListed();
    forall name | name in db && name != "app_settings" ensures p.db[name] == db[name] {
      if key :| key in EXPORT_KEYS && TableName(key) == name {
        assert p.db[name] == RestoredTable(db, db, key);
      }
    }
    assert EXPORT_KEYS[4] in EXPORT_KEYS && "devices" != "app_settings";
  }

  /** The restored settings are the same rows apart from their ids. */
  lemma SameSettings(settings: Table)
    ensures multiset(WithoutIds(RestoredSettings(settings, settings))) == multiset(WithoutIds(settings))
  {
    if OpenRows(settings) != [] {
      var kept, open := ProtectedRows(settings), WithoutIds(OpenRows(settings));
      RenumberedSame(OpenRows(settings), NextId(kept));
      hide WithoutIds, Renumber, OpenRows;
      WithoutIdsJoined(kept, Renumber(open, NextId(kept)));
      SplitSettings(settings);
    }
  }

  lemma RenumberedSame(rows: Table, first: int)
    ensures WithoutIds(Renumber(WithoutIds(rows), first)) == WithoutIds(rows)
  {
    var back := Renumber(WithoutIds(rows), first);
    forall i | 0 <= i < |rows| ensures back[i] - {"id"} == rows[i] - {"id"} {}
  }

  lemma WithoutIdsJoined(a: Table, b: Table)
    ensures WithoutIds(a + b) == WithoutIds(a) + WithoutIds(b)
  {
  }

  lemma {:induction false} SplitSettings(settings: Table)
    ensures multiset(WithoutIds(ProtectedRows(settings))) + multiset(WithoutIds(OpenRows(settings)))
            == multiset(WithoutIds(settings))
  {
    if settings != [] {
      var first, rest := settings[0], settings[1..];
      SplitSettings(rest);
      hide IsProtected;
      assert settings == [first] + rest;
      WithoutIdsFirst(first, rest);
      if IsProtected(first) {
        assert ProtectedRows(settings) == [first] + ProtectedRows(rest) && OpenRows(settings) == OpenRows(rest);
        WithoutIdsFirst(first, ProtectedRows(rest));
      } else {
        assert OpenRows(settings) == [first] + OpenRows(rest) && ProtectedRows(settings) == ProtectedRows(rest);
        WithoutIdsFirst(first, OpenRows(rest));
      }
    }
  }

  lemma WithoutIdsFirst(first: Row, rest: Table)
    ensures multiset(WithoutIds([first] + rest)) == multiset{first - {"id"}} + multiset(WithoutIds(rest))
  {
    assert WithoutIds([first] + rest) == [first - {"id"}] + WithoutIds(rest);
  }
}
